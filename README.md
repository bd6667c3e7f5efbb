# Findr candidate tracker — a Dafny model of its core

Findr is a desktop recruiting tracker. Candidates (persons) move through four
stages, Candidates, Contacted, Interviewed and Hired. Each candidate can carry a
rating and a set of tags taken from a shared tag catalogue. This project models
the following parts of it in Dafny and proves properties of the model:

- **Value types** (`Tags`, `Names`, `Stages`, `Ratings`, `Persons`):
  - tag validation, normalisation, and identity (`isSameTag`) versus value equality (`equals`);
  - name whitespace collapsing, the case-insensitive canonical form, and title-cased display;
  - case-insensitive stage and rating parsing;
  - the immutable person record, with its weak identity and strong equality.
- **The registry** (`Registry.Findr`, a class): the ordered candidate list and the tag catalogue.
  - Tags on inserted candidates resolve to catalogue entries, and unknown tags are registered.
  - Editing or deleting a catalogue tag cascades to exactly the candidates that hold it.
  - The unique person and tag lists are sequences kept unique by identity (`UniqueLists`).
- **The commands**, as state transitions on a `Models.Model`, which is a registry plus a display filter:
  - rate, move, delete and clear (`CandidateCommands`);
  - tag add, edit, delete and list (`TagCommands`, `TagListing`);
  - the strict tag resolution in `TagCommands.ResolveTags`.
- **The argument parsers** (`ParserUtil`, `Parsers`): each is a pure function from a tokenised argument map to a command or an error.
- **Storage decoding** (`Storage`): stored tags and the stored registry become model values, with defaults, duplicate checks and load order.
- **The command-history buffer** of the command box (`CommandHistory`): 50 entries with a navigation cursor.

Generic modules carry the reasoning about lists kept unique by a key (`UniqueLists`, `Sequences`, `KeyedSets`,
`Catalogues`). They are instantiated with the tag identity (the lower-cased name) and the person identity (the
canonical name). `Text` models the ASCII behaviour of `String.trim`, `toUpperCase`, `toLowerCase` and
`equalsIgnoreCase`.

Where two files of the system disagree, the model follows the code that runs and records the choice:

- `MoveCommand` builds a person with a six-argument constructor that `Person` does not have.
  - The model uses the five-argument constructor: a fresh date, the Unrated rating and the target stage.
  - `CandidateCommands.Moved` states what is kept.
- `DeleteCommandParser` builds a one-argument `DeleteCommand` that does not exist.
  - The model gives that form an absent stage.
  - Its execution scopes the index to an empty column, so it always fails with the invalid-index message.
- `JsonSerializableFindr` calls `addPerson`, which the registry does not have. It is taken as `addCandidate`.
- The five-argument `Person` constructor names a `Rating.RatingType` that does not exist. It is taken as the Unrated rating.
- Several tests disagree with the code, and the model follows the parsers and the command box as written:
  - `RateCommandParserTest` expects distinct messages and duplicate-prefix errors.
  - The history helper in `CommandBoxTest` saves a failing command.

## Model

| member | source | states |
|---|---|---|
| Tags.MakeTag | src/main/java/seedu/address/model/tag/Tag.java:56-69 | the constructor succeeds iff name, category, colour and description are all valid; a failure names the first invalid field in checking order; a success keeps the name as given, stores the trimmed category and description and the upper-cased colour, and is a normal tag |
| Tags.IsValidTagName | src/main/java/seedu/address/model/tag/Tag.java:74-76 | definition of `\p{Alnum}+`: non-empty, letters and digits only |
| Tags.IsValidCategory | src/main/java/seedu/address/model/tag/Tag.java:81-84 | definition of `[\p{Alnum}](?:[ \p{Alnum}])*`: a letter or digit first, then letters, digits and spaces |
| Tags.IsValidColour | src/main/java/seedu/address/model/tag/Tag.java:89-92 | definition of `^#(?:[0-9a-fA-F]{6})$`: a hash sign and six hex digits |
| Tags.IsValidDescription | src/main/java/seedu/address/model/tag/Tag.java:97-100 | definition: at most 200 characters |
| Tags.TrimmedCategory | src/main/java/seedu/address/model/tag/Tag.java:32-66 | trimming a valid category leaves a valid category, a prefix of the input that drops only trailing spaces |
| Tags.UpperIgnoresCase | src/main/java/seedu/address/model/tag/Tag.java:102-104 | colour normalisation only changes letter case |
| Tags.DefaultTag | src/main/java/seedu/address/model/tag/Tag.java:35-51 | the one-argument constructor succeeds iff the name is valid, failing with the name error otherwise, and gives a normal tag with category "General", colour "#7A7A7A" and an empty description |
| Tags.DefaultTagDelegates | src/main/java/seedu/address/model/tag/Tag.java:49-51 | the one-argument constructor gives exactly what the full constructor gives on the default values, failure included |
| Tags.RebuildNormalTag | src/main/java/seedu/address/model/tag/Tag.java:56-69 | normalisation is idempotent: rebuilding a constructed tag from its own fields gives the same tag |
| Tags.IsSameTag | src/main/java/seedu/address/model/tag/Tag.java:109-115 | two tags are the same iff their names are equal ignoring case |
| Tags.TagEqualsIffSameHashKey | src/main/java/seedu/address/model/tag/Tag.java:128-137 | `equals` holds iff the tuples hashed by `hashCode` are equal, so equal tags hash equally |
| Tags.TagEquals | src/main/java/seedu/address/model/tag/Tag.java:117-132 | `equals` compares the name ignoring case and the other three fields exactly; equal tags are the same tag |
| Tags.TagToString | src/main/java/seedu/address/model/tag/Tag.java:143-145 | the text form is the name in square brackets |
| Names.RejectedNames | src/main/java/seedu/address/model/person/Name.java:22-47 | "", " ", "^" and "peter*" are rejected; "Raj s/o Kumar" is accepted, while a bare "s/o" or "Ras/o" is not |
| Names.IsValidName | src/main/java/seedu/address/model/person/Name.java:22-47 | definition of the validation pattern: a letter or digit first, then letters, digits, space, `@`, `'`, `-` and a whole-word `s/o` or `d/o`; no `.`, `,` or other character |
| Names.Collapse | src/main/java/seedu/address/model/person/Name.java:79-81 | definition: trim, then every whitespace run becomes one space (its properties are the next rows) |
| Names.Canonicalize | src/main/java/seedu/address/model/person/Name.java:75-77 | definition: the collapsed form, lower-cased |
| Names.CollapseIsCollapsed | src/main/java/seedu/address/model/person/Name.java:79-81 | the collapsed form has no leading or trailing whitespace and no run of two whitespace characters |
| Names.CollapseIdempotent | src/main/java/seedu/address/model/person/Name.java:79-81 | collapsing twice is collapsing once |
| Names.CollapseKeepsValid | src/main/java/seedu/address/model/person/Name.java:22-81 | the collapsed form of a valid name is valid |
| Names.TrimmedValid | src/main/java/seedu/address/model/person/Name.java:22-80 | the trimmed form of a valid name is non-empty, starts with a letter or digit and stays in the name alphabet |
| Names.DisplayForm | src/main/java/seedu/address/model/person/Name.java:83-111 | the display form has one character per input character |
| Names.FormatDisplayName | src/main/java/seedu/address/model/person/Name.java:83-111 | the character loop with its capitalise-next flag computes the display form |
| Names.DisplayFormCapitalises | src/main/java/seedu/address/model/person/Name.java:88-108 | the first character and any character after whitespace, an apostrophe, a hyphen or a slash is not lower case; every other character is not upper case; each character keeps its lower-cased value |
| Names.DisplayFormIgnoresCase | src/main/java/seedu/address/model/person/Name.java:84 | inputs that differ only in letter case have the same display form |
| Names.DisplayFormLower | src/main/java/seedu/address/model/person/Name.java:84-108 | lower-casing the display form gives the lower-cased input, with whitespace turned into spaces |
| Names.NameOf | src/main/java/seedu/address/model/person/Name.java:34-40 | construction fails iff the name is invalid, with the constraints message; the full name is as long as the collapsed input and the canonical form is collapsed |
| Names.NewName | src/main/java/seedu/address/model/person/Name.java:34-40 | the constructor agrees with `NameOf` and stores the display form of the collapsed input |
| Names.NameEqualsIffCanonical | src/main/java/seedu/address/model/person/Name.java:66-77 | two names are equal iff their collapsed, lower-cased inputs are identical |
| Names.NameEquals | src/main/java/seedu/address/model/person/Name.java:55-68 | definition: `equals` compares the canonical forms |
| Names.SpacingAndCaseDoNotMatter | src/main/java/seedu/address/model/person/Name.java:66-81 | "Valid    Name" and "valid name" are both accepted and are equal names |
| Names.ValidIgnoresCase | src/main/java/seedu/address/model/person/Name.java:22-23 | the validation pattern is case-insensitive |
| Names.DisplayOfValidCollapsed | src/main/java/seedu/address/model/person/Name.java:83-111 | the display form of a valid collapsed name is valid, collapsed and equal to it ignoring case |
| Names.NameIdempotent | src/main/java/seedu/address/model/person/Name.java:34-40 | building a name from another name's full name gives the same full name and canonical form |
| Stages.ValueOf | src/main/java/seedu/address/model/person/Stage.java:10-39 | the enum lookup finds the stage with exactly that constant name, or reports that none has it |
| Stages.FromString | src/main/java/seedu/address/model/person/Stage.java:35-57 | parsing succeeds iff `isValidStage` holds, giving the stage whose constant name is the trimmed, upper-cased input; otherwise it fails with the constraints message |
| Stages.IsValidStage | src/main/java/seedu/address/model/person/Stage.java:35-44 | definition: the trimmed, upper-cased text is a constant name |
| Stages.StageRoundTrip | src/main/java/seedu/address/model/person/Stage.java:11-57 | parsing a stage's display name gives the stage back |
| Stages.StageIgnoresCaseAndBlanks | src/main/java/seedu/address/model/person/Stage.java:37-56 | any input whose trimmed, lower-cased form is a stage's lower-cased display name parses to that stage |
| Stages.StageRejects | src/main/java/seedu/address/model/person/Stage.java:35-44 | "Rejected" and the empty string are not stages |
| Stages.UpperOfDisplayName | src/main/java/seedu/address/model/person/Stage.java:11-37 | a display name is already trimmed, and its upper-cased form is the constant name |
| Stages.ValueOfEnumName | src/main/java/seedu/address/model/person/Stage.java:39 | the lookup of a constant name finds its stage |
| Ratings.ValueOf | src/main/java/seedu/address/model/person/Rating.java:10-64 | the enum lookup finds the rating with exactly that constant name, or reports that none has it |
| Ratings.ParseRating | src/main/java/seedu/address/model/person/Rating.java:53-74 | blank input fails; a success matches either the constant name (upper case, spaces as underscores) or a display name ignoring case; every failure carries the constraints message |
| Ratings.ParseRatingAccepts | src/main/java/seedu/address/model/person/Rating.java:53-74 | every spelling whose trimmed, upper-cased, underscored form is a constant name parses to that constant; every case variant of a display name is accepted; a failure means the text is neither for any rating |
| Ratings.FromString | src/main/java/seedu/address/model/person/Rating.java:53-74 | the try-then-search method computes `ParseRating` |
| Ratings.IsValidRating | src/main/java/seedu/address/model/person/Rating.java:39-46 | definition: `fromString` does not fail |
| Ratings.SearchDisplayNames | src/main/java/seedu/address/model/person/Rating.java:67-72 | the loop over the ratings in declaration order returns the first whose display name matches ignoring case, or nothing |
| Ratings.DisplayMatch | src/main/java/seedu/address/model/person/Rating.java:67-72 | a found rating's display name matches ignoring case, and nothing found means no display name matches |
| Ratings.DisplayMatchIsFirst | src/main/java/seedu/address/model/person/Rating.java:67-72 | the search returns the earliest matching rating in declaration order |
| Ratings.RatingRoundTrip | src/main/java/seedu/address/model/person/Rating.java:11-74 | parsing a rating's display name, or its constant name, gives the rating back |
| Ratings.VeryPoorSpellings | src/main/java/seedu/address/model/person/Rating.java:59-64 | "very poor" and "VERY_POOR" both parse to Very Poor |
| Ratings.FallbackNeverDecides | src/main/java/seedu/address/model/person/Rating.java:62-73 | every successful parse is already decided by the constant-name lookup, so the display-name fallback never changes the result |
| Ratings.ConstantNameParses | src/main/java/seedu/address/model/person/Rating.java:62-64 | a constant name parses to its rating |
| Persons.IsSamePerson | src/main/java/seedu/address/model/person/Person.java:100-107 | two persons are the same iff their names are equal names |
| Persons.NewPerson | src/main/java/seedu/address/model/person/Person.java:36-39 | definition: the five-argument constructor fills in the given date, the Unrated rating and the Candidates stage |
| Persons.PersonEquals | src/main/java/seedu/address/model/person/Person.java:113-131 | `equals` compares name, phone, email, address, tag set and stage, and not rating or date; equal persons are the same person |
| Persons.TagSetEqualsIffSameHashKey | src/main/java/seedu/address/model/person/Person.java:125-136 | two tag sets with no `equals`-equal members are equal iff the sets of their hash tuples are equal |
| Persons.PersonEqualsIffSameHashKey | src/main/java/seedu/address/model/person/Person.java:113-137 | for persons whose tag sets hold no `equals`-equal pair, `equals` holds iff the fields hashed by `hashCode` agree, so equal persons hash equally |
| Persons.EqualityIgnoresRatingAndDate | src/main/java/seedu/address/model/person/Person.java:113-131 | changing the rating or the date keeps a person equal and the same person |
| UniqueLists.Add | src/test/java/seedu/address/model/tag/UniqueTagListTest.java:58-61 | adding fails with a duplicate error iff an entry has the same identity, and otherwise appends and keeps the list unique |
| UniqueLists.Update | src/test/java/seedu/address/model/tag/UniqueTagListTest.java:71-90 | replacing fails with not-found for a missing target and with a duplicate error for another entry's identity; otherwise only the target's position changes |
| UniqueLists.Remove | src/test/java/seedu/address/model/tag/UniqueTagListTest.java:98-108 | removing fails iff no entry has the identity; otherwise exactly that entry is removed and the rest keep their order |
| UniqueLists.Replace | src/test/java/seedu/address/model/tag/UniqueTagListTest.java:111-125 | replacing the whole list succeeds iff the new list has no two entries of the same identity |
| Catalogues.ResolveAllMeaning | src/main/java/seedu/address/model/Findr.java:195-206 | every resolved tag is a catalogue entry with the identity of some input tag, and each input tag present in the catalogue is represented |
| Catalogues.ResolveInto | src/main/java/seedu/address/model/Findr.java:196-202 | the resolution loop keeps the catalogue unique, only adds entries for the person's tags, maps each tag to its catalogue entry, and adds nothing when every tag is known |
| KeyedSets.RetagOne | src/main/java/seedu/address/model/Findr.java:167-178 | the per-person loop flags a change iff the person holds a tag of the target's identity, and builds the set with those tags replaced or dropped |
| KeyedSets.RetagMeaning | src/main/java/seedu/address/model/Findr.java:167-178 | a set without the target is untouched; with it, the replacement is present and no other tag of the target's identity remains |
| Registry.UsedTags | src/main/java/seedu/address/model/Findr.java:55-60 | the tags used by a candidate list are exactly the union of their tag sets |
| Registry.ResolveEach | src/main/java/seedu/address/model/Findr.java:55-58 | resolving a list changes only each candidate's tags, and keeps the list unique iff it was unique |
| Registry.ResolveList | src/main/java/seedu/address/model/Findr.java:55-58 | the stream over the list grows the catalogue only by the used tags, keeps it unique, and gives each candidate its resolved tags |
| Registry.Cascade | src/main/java/seedu/address/model/Findr.java:163-193 | the cascade changes only candidates' tags, keeps the list's length and keeps it unique |
| Registry.CascadeMeaning | src/main/java/seedu/address/model/Findr.java:166-187 | a candidate without the target is kept as-is; one with it holds the replacement, if any, and no other tag of the target's identity |
| Registry.CascadeUntouched | src/main/java/seedu/address/model/Findr.java:190-192 | when no candidate holds the target, the list is left exactly as it was |
| Registry.EqualRegistriesHashApart | src/main/java/seedu/address/model/Findr.java:228-246 | two registries with the same candidates are `equals`, yet they hash apart when one has an extra tag |
| Registry.RegistryHash | src/main/java/seedu/address/model/Findr.java:243-246 | the corrected hash is `List.hashCode` of the candidates alone, each hashed from the fields its `hashCode` reads; it stays within the 32-bit range |
| Registry.RegistryHashFollowsEquals | src/main/java/seedu/address/model/Findr.java:228-246 | registries that are `equals` (element-wise equal candidates, any catalogues) have the same corrected hash, for any hash of the candidate fields |
| Registry.ResolvedTagsHaveNoDuplicates | src/main/java/seedu/address/model/Findr.java:195-206 | a tag set resolved against the catalogue never holds two `equals`-equal tags, as a hash set would not |
| Registry.Findr.Equals | src/main/java/seedu/address/model/Findr.java:229-241 | definition: `equals` compares the candidate lists element by element and not the catalogues |
| Registry.Findr.constructor | src/main/java/seedu/address/model/Findr.java:34-39 | a new registry is empty and valid |
| Registry.Findr.HasCandidate | src/main/java/seedu/address/model/Findr.java:77-80 | true iff some candidate is the same person |
| Registry.Findr.HasTag | src/main/java/seedu/address/model/Findr.java:130-133 | true iff some catalogue entry has the tag's identity |
| Registry.Findr.GetTag | src/main/java/seedu/address/model/Findr.java:122-125 | returns the stored entry with the tag's identity, or not-found iff there is none |
| Registry.Findr.ResolveTagsForPerson | src/main/java/seedu/address/model/Findr.java:195-206 | unknown tags join the catalogue, candidates are untouched, and the person gets the catalogue entries of its tags; nothing is added when all tags are known |
| Registry.Findr.AddCandidate | src/main/java/seedu/address/model/Findr.java:86-88 | tags are registered before the add, so a refused duplicate can still leave new tags behind; a success appends the resolved person |
| Registry.Findr.SetPerson | src/main/java/seedu/address/model/Findr.java:95-99 | the unique-list update of the target, with the catalogue untouched |
| Registry.Findr.RemovePerson | src/main/java/seedu/address/model/Findr.java:105-107 | the unique-list removal of the candidate, with the catalogue untouched |
| Registry.Findr.SetPersons | src/main/java/seedu/address/model/Findr.java:55-60 | a duplicate-free list is installed with each candidate's tags resolved and the catalogue grown by the used tags |
| Registry.Findr.SetTags | src/main/java/seedu/address/model/Findr.java:115-117 | a catalogue with a duplicate identity is refused; otherwise it replaces the old one, with candidates untouched |
| Registry.Findr.ResetData | src/main/java/seedu/address/model/Findr.java:65-70 | installs the catalogue first, then the candidates with resolution, so every tag a candidate uses ends up in the catalogue |
| Registry.Findr.AddTag | src/main/java/seedu/address/model/Findr.java:139-141 | appends a tag of a new identity, and refuses a duplicate without change |
| Registry.Findr.SetTag | src/main/java/seedu/address/model/Findr.java:148-152 | on success the catalogue entry is replaced and the cascade runs; on failure neither the catalogue nor any candidate changes |
| Registry.Findr.RemoveTag | src/main/java/seedu/address/model/Findr.java:158-161 | on success the entry is removed and dropped from every candidate; on failure nothing changes |
| Registry.Findr.ReplaceTagAcrossPersons | src/main/java/seedu/address/model/Findr.java:163-193 | the loop leaves the candidates as the cascade of the old list, with the catalogue untouched |
| Models.FromOneBased | src/main/java/seedu/address/logic/parser/ParserUtil.java:41 | converting a one-based number to an index and back gives the number |
| Models.StageScopedIndexExample | src/main/java/seedu/address/logic/commands/RateCommand.java:75-89 | with candidates A and C in Candidates and B in Contacted, index 2 of Candidates is C |
| Models.ScopeMembers | src/main/java/seedu/address/logic/commands/RateCommand.java:72-80 | the stage-scoped view holds only displayed candidates of that stage |
| Models.Model.Displayed | src/main/java/seedu/address/model/ModelManager.java:125-127 | the displayed list holds exactly the registry's candidates that pass the filter |
| Models.Model.UpdateFilter | src/main/java/seedu/address/model/ModelManager.java:130-133 | the display filter becomes the given predicate |
| CandidateCommands.RerateKeepsCandidate | src/main/java/seedu/address/logic/commands/RateCommand.java:89-101 | re-rating keeps the candidate equal and the same person with its date, sets the new rating, touches no other candidate and keeps the list unique |
| CandidateCommands.RerateOverwrites | src/main/java/seedu/address/logic/commands/RateCommand.java:98-101 | a later rating overwrites an earlier one, and rating twice with the same value is rating once |
| CandidateCommands.RateAllShown | src/main/java/seedu/address/logic/commands/RateCommand.java:72-104 | with everything shown and no stage, index i re-rates the i-th candidate and reports its name |
| CandidateCommands.RateCommand.OutcomeMeaning | src/main/java/seedu/address/logic/commands/RateCommand.java:70-104 | the command fails iff the index is past the scoped list, with the stage message or the invalid-index message; a success re-rates exactly the candidate found there |
| CandidateCommands.RateCommand.Outcome | src/main/java/seedu/address/logic/commands/RateCommand.java:70-104 | definition of `execute`, check by check, on the candidate list and the display filter; its meaning is the row above |
| CandidateCommands.RateCommand.Equals | src/main/java/seedu/address/logic/commands/RateCommand.java:108-122 | definition: the same index, rating and stage |
| CandidateCommands.RateCommand.RateTwice | src/main/java/seedu/address/logic/commands/RateCommand.java:98-102 | after a rating, rating the same position again is the same as rating it once with the second value |
| CandidateCommands.RateCommand.Execute | src/main/java/seedu/address/logic/commands/RateCommand.java:70-105 | the model changes as the outcome says, the filter is reset to show all on success, and a failure changes nothing |
| CandidateCommands.Moved | src/main/java/seedu/address/logic/commands/MoveCommand.java:83-89 | the moved candidate is the same person with the same contact fields and tags, now in the target stage |
| CandidateCommands.MoveCommand.OutcomeMeaning | src/main/java/seedu/address/logic/commands/MoveCommand.java:63-93 | the checks come in order: index past the displayed list, then the wrong current stage naming the actual stage, then the same stage; a success moves exactly the candidate at the index |
| CandidateCommands.MoveCommand.Outcome | src/main/java/seedu/address/logic/commands/MoveCommand.java:60-94 | definition of `execute`, check by check; its meaning is the row above |
| CandidateCommands.MoveCommand.Equals | src/main/java/seedu/address/logic/commands/MoveCommand.java:97-111 | definition: the same index and stages |
| CandidateCommands.MoveCommand.Execute | src/main/java/seedu/address/logic/commands/MoveCommand.java:60-94 | the model changes as the outcome says, the catalogue never changes, and a failure changes nothing |
| CandidateCommands.DeleteCommand.OutcomeMeaning | src/main/java/seedu/address/logic/commands/DeleteCommand.java:51-67 | the command fails iff the index is past the stage column, with the invalid-index message; a success removes exactly that candidate, from its own position, and keeps the others in order |
| CandidateCommands.DeleteCommand.Outcome | src/main/java/seedu/address/logic/commands/DeleteCommand.java:51-67 | definition of `execute`: resolve the index in the stage column, then remove that candidate; its meaning is the row above |
| CandidateCommands.DeleteCommand.Equals | src/main/java/seedu/address/logic/commands/DeleteCommand.java:70-83 | definition: the same index and stage |
| CandidateCommands.DeleteCommand.Execute | src/main/java/seedu/address/logic/commands/DeleteCommand.java:51-67 | the model changes as the outcome says, the catalogue never changes, and a failure changes nothing |
| CandidateCommands.ClearMeaning | src/main/java/seedu/address/logic/commands/ClearCommand.java:57-65 | clearing a stage keeps exactly the candidates that are not displayed ones of that stage; clearing twice is clearing once; clearing an empty stage changes nothing |
| CandidateCommands.ClearCommand.Equals | src/main/java/seedu/address/logic/commands/ClearCommand.java:70-82 | definition: the same scope |
| CandidateCommands.ClearCommand.Execute | src/main/java/seedu/address/logic/commands/ClearCommand.java:49-67 | clearing all empties candidates and catalogue; clearing a stage removes its displayed candidates and keeps the catalogue |
| CandidateCommands.ClearStageOf | src/main/java/seedu/address/logic/commands/ClearCommand.java:57-63 | the deletion loop leaves exactly the list `ClearMeaning` describes |
| TagCommands.ResolveTags | src/main/java/seedu/address/logic/commands/TagCommandUtil.java:31-44 | succeeds iff every tag is in the catalogue, giving their catalogue entries, and otherwise fails with "Would you like to create this tag first?"; the model is not changed |
| TagCommands.RebuildPersonWithTags | src/main/java/seedu/address/logic/commands/TagCommandUtil.java:49-53 | keeps the name and contact fields, uses exactly the given tags, and resets the stage to Candidates; the result equals the source iff the tags are equal and the source was in Candidates |
| TagCommands.TagAddCommand.AddMeaning | src/main/java/seedu/address/logic/commands/TagAddCommand.java:33-42 | a success appends the tag, keeps the catalogue unique, and the tag is then found; adding the same identity again in any case is refused as a duplicate |
| TagCommands.TagAddCommand.Outcome | src/main/java/seedu/address/logic/commands/TagAddCommand.java:33-42 | definition of `execute`: refuse a present identity, otherwise append; its meaning is the row above |
| TagCommands.TagAddCommand.Equals | src/main/java/seedu/address/logic/commands/TagAddCommand.java:45-56 | definition: the tags are `equals` |
| TagCommands.TagAddCommand.Execute | src/main/java/seedu/address/logic/commands/TagAddCommand.java:33-42 | the catalogue changes as the outcome says, candidates never change, and a failure changes nothing |
| TagCommands.TagDeleteCommand.DeleteMeaning | src/main/java/seedu/address/logic/commands/TagDeleteCommand.java:31-43 | deletion succeeds iff the name is valid and some entry has its identity; afterwards neither the catalogue nor any candidate holds that identity, and every other entry stays |
| TagCommands.TagDeleteCommand.Outcome | src/main/java/seedu/address/logic/commands/TagDeleteCommand.java:31-43 | definition of `execute`: look the name up, remove the entry, drop it from every candidate; its meaning is the row above |
| TagCommands.TagDeleteCommand.Equals | src/main/java/seedu/address/logic/commands/TagDeleteCommand.java:46-57 | definition: the same target name |
| TagCommands.TagDeleteCommand.Execute | src/main/java/seedu/address/logic/commands/TagDeleteCommand.java:31-43 | the model changes as the outcome says, and a failure changes nothing |
| TagCommands.CreateEditedTag | src/main/java/seedu/address/logic/commands/TagEditCommand.java:79-88 | each field is the descriptor's value when set and the tag's own value otherwise, put through the full constructor: it fails iff one of those is invalid, naming the first; a success stores the name, the trimmed category and description and the upper-cased colour, and an unset field of a constructed tag is kept as it was; an edit setting no field rebuilds the tag itself |
| TagCommands.EditTagDescriptor.IsAnyFieldEdited | src/main/java/seedu/address/logic/commands/TagEditCommand.java:137-139 | definition: some field is set |
| TagCommands.TagEditCommand.Located | src/main/java/seedu/address/logic/commands/TagEditCommand.java:54-59 | the target is found iff its name is valid and some entry has its identity; an invalid name fails with the name error, a missing one with the tag-not-found message |
| TagCommands.TagEditCommand.Revised | src/main/java/seedu/address/logic/commands/TagEditCommand.java:65-68 | an accepted edit is a normal tag that is not `equals` to the original |
| TagCommands.TagEditCommand.EditMeaning | src/main/java/seedu/address/logic/commands/TagEditCommand.java:50-77 | an invalid or missing target is reported before anything else; a found target with no field set, or an edit that rebuilds the same tag, gets the not-edited message; a success puts the edited tag where the original was, keeps the catalogue unique and cascades to the candidates |
| TagCommands.TagEditCommand.Outcome | src/main/java/seedu/address/logic/commands/TagEditCommand.java:50-77 | definition of `execute`, check by check; its meaning is the row above |
| TagCommands.TagEditCommand.Equals | src/main/java/seedu/address/logic/commands/TagEditCommand.java:91-103 | definition: the same target name and descriptor |
| TagCommands.TagEditCommand.RenameOntoOtherRefused | src/main/java/seedu/address/logic/commands/TagEditCommand.java:70-74 | renaming onto another entry's identity fails with the duplicate message |
| TagCommands.TagEditCommand.Execute | src/main/java/seedu/address/logic/commands/TagEditCommand.java:50-77 | the model changes as the outcome says, and a failure changes nothing |
| TagListing.SortByNameSorted | src/main/java/seedu/address/logic/commands/TagListCommand.java:32-37 | the sorted copy is ordered by name ignoring case and holds exactly the catalogue's entries |
| TagListing.SortByName | src/main/java/seedu/address/logic/commands/TagListCommand.java:32-37 | the sorted copy has the same elements, with their multiplicities, as the catalogue |
| TagListing.SortedUniqueIsStrict | src/main/java/seedu/address/logic/commands/TagListCommand.java:37 | in a catalogue with unique identities, the sorted order is strictly increasing |
| TagListing.EntryShape | src/main/java/seedu/address/logic/commands/TagListCommand.java:45-53 | an entry opens with its one-based number, and the description appears only when it is non-empty |
| TagListing.Entry | src/main/java/seedu/address/logic/commands/TagListCommand.java:45-53 | definition of `formatTagEntry`; its shape is the row above |
| TagListing.ListTagsMeaning | src/main/java/seedu/address/logic/commands/TagListCommand.java:28-43 | the listing is the no-tags message iff the catalogue is empty; otherwise it opens with the count, and the entries follow in name order |
| TagListing.ListTags | src/main/java/seedu/address/logic/commands/TagListCommand.java:28-43 | definition of `execute`; its meaning is the row above |
| ParserUtil.ParseIndex | src/main/java/seedu/address/logic/parser/ParserUtil.java:27-42 | succeeds iff the trimmed input is a non-zero unsigned integer that fits an int, giving that one-based index; otherwise it fails with the invalid-index message |
| ParserUtil.ParseIndexRoundTrip | src/main/java/seedu/address/logic/parser/ParserUtil.java:36-42 | the decimal form of an index parses back to it |
| ParserUtil.ParseIndexRejectsZero | src/main/java/seedu/address/logic/parser/ParserUtil.java:38-40 | "0" is refused |
| ParserUtil.ParseIndexRejectsSigns | src/main/java/seedu/address/logic/parser/ParserUtil.java:38-40 | signed numbers are refused |
| ParserUtil.ParseIndexTrims | src/main/java/seedu/address/logic/parser/ParserUtil.java:37 | surrounding blanks do not matter |
| ParserUtil.ParseTag | src/main/java/seedu/address/logic/parser/ParserUtil.java:110-117 | succeeds iff the trimmed input is a valid tag name, giving the default tag of that name |
| ParserUtil.ParseTagName | src/main/java/seedu/address/logic/parser/ParserUtil.java:124-131 | returns the trimmed input iff it is a valid tag name, and otherwise fails with the tag constraints message |
| ParserUtil.ParseTagCategory | src/main/java/seedu/address/logic/parser/ParserUtil.java:138-145 | returns the trimmed input iff it is a valid category, and otherwise fails with the category message |
| ParserUtil.ParseTagColour | src/main/java/seedu/address/logic/parser/ParserUtil.java:152-159 | returns the trimmed input iff it is a valid colour, and otherwise fails with the colour message |
| ParserUtil.ColourCaseKept | src/main/java/seedu/address/logic/parser/ParserUtil.java:152-159 | the parser does not upper-case a colour |
| ParserUtil.ParseTagDescription | src/main/java/seedu/address/logic/parser/ParserUtil.java:166-173 | returns the trimmed input iff it has at most 200 characters, and otherwise fails with the description message |
| ParserUtil.ParseStageIsFromString | src/main/java/seedu/address/logic/parser/ParserUtil.java:211-218 | the stage parser agrees with `Stage.fromString` |
| ParserUtil.ParseStage | src/main/java/seedu/address/logic/parser/ParserUtil.java:211-218 | a failure carries the stage constraints message; agreement with `Stage.fromString` is the row above |
| ParserUtil.DisplayNameParses | src/main/java/seedu/address/logic/parser/ParserUtil.java:211-218 | every display name parses to its stage |
| ParserUtil.SetAddMeaning | src/main/java/seedu/address/logic/parser/ParserUtil.java:182 | adding to a hash set leaves no two `equals`-equal members and adds exactly the new tag's hash tuple |
| ParserUtil.SetAdd | src/main/java/seedu/address/logic/parser/ParserUtil.java:180-182 | `HashSet.add`: the set is unchanged when it holds a tag with the same hash data, and gains the tag otherwise |
| ParserUtil.ParsedTagsMeaning | src/main/java/seedu/address/logic/parser/ParserUtil.java:178-185 | parsing succeeds iff every name is valid, with the tag message otherwise; the result holds the parsed tags with no two `equals`-equal |
| ParserUtil.CaseVariantsCollapse | src/main/java/seedu/address/logic/parser/ParserUtil.java:178-185 | "Friends" and "friends" give a single tag |
| ParserUtil.ParseTags | src/main/java/seedu/address/logic/parser/ParserUtil.java:178-185 | the loop computes the parsed tag set |
| Parsers.ArgMultimap.GetValue | src/main/java/seedu/address/logic/parser/RateCommandParser.java:45 | a prefix's value is present iff it was given, and is the last one given |
| Parsers.CheckDuplicates | src/main/java/seedu/address/logic/parser/MoveCommandParser.java:40 | no error iff no listed prefix was given twice; otherwise the error names the repeated prefixes |
| Parsers.ParseRate | src/main/java/seedu/address/logic/parser/RateCommandParser.java:30-76 | succeeds iff the index, the rating and the `from/` stage are all present and valid, giving a command with that stage; every failure is the usage message |
| Parsers.RateRoundTrip | src/main/java/seedu/address/logic/parser/RateCommandParser.java:30-76 | arguments carrying an index, a rating word and a stage word parse to the command they name |
| Parsers.RateDisplayRoundTrip | src/main/java/seedu/address/logic/parser/RateCommandParser.java:30-76 | a command written with display names parses back to itself |
| Parsers.ParseMove | src/main/java/seedu/address/logic/parser/MoveCommandParser.java:24-61 | the index is checked first, then missing prefixes, then repeated prefixes, then both stages; a success carries both stages |
| Parsers.MoveRoundTrip | src/main/java/seedu/address/logic/parser/MoveCommandParser.java:24-53 | valid arguments parse to the command they name |
| Parsers.MoveDuplicatesBeforeStages | src/main/java/seedu/address/logic/parser/MoveCommandParser.java:40-50 | a repeated `from/` is reported before the stage values are looked at |
| Parsers.ParseDelete | src/main/java/seedu/address/logic/parser/DeleteCommandParser.java:21-46 | a bad index fails with the usage message; without `from/` the index-only command results; with it, a repeated prefix or a bad stage fails, and a valid one gives the scoped command |
| Parsers.DeleteRoundTrip | src/main/java/seedu/address/logic/parser/DeleteCommandParser.java:21-46 | valid arguments parse to the command they name |
| Parsers.ParseOptional | src/main/java/seedu/address/logic/parser/TagAddCommandParser.java:41-52 | an absent field takes the default and a present one is parsed |
| Parsers.TagOfFields | src/main/java/seedu/address/logic/parser/TagAddCommandParser.java:37 | fields that passed their parsers always build a tag |
| Parsers.ParseTagAdd | src/main/java/seedu/address/logic/parser/TagAddCommandParser.java:21-52 | a missing name fails with the usage message, then a repeated prefix; otherwise it succeeds iff every given field parses, with the tag the constructor builds from the parsed or defaulted fields, and a failure carries the message of the first field that does not parse |
| Parsers.TagAddRoundTrip | src/main/java/seedu/address/logic/parser/TagAddCommandParser.java:21-39 | the fields of a constructed tag parse back to a command adding that tag |
| Parsers.TagAddNameOnly | src/main/java/seedu/address/logic/parser/TagAddCommandParser.java:41-52 | a name alone gives the tag with the default category, colour and description |
| Parsers.ParseField | src/main/java/seedu/address/logic/parser/TagEditCommandParser.java:33-45 | an absent field stays unset and a present one is set only after it is validated |
| Parsers.ParseDescriptor | src/main/java/seedu/address/logic/parser/TagEditCommandParser.java:32-44 | a success holds, for each of the new name, category, colour and description prefixes, its validated value or unset when absent, and sets some field exactly when one of those prefixes is present; it fails exactly when some present field is invalid, with the message of the first such field in that order; a descriptor with no field set is not refused here |
| Parsers.ParseTagEdit | src/main/java/seedu/address/logic/parser/TagEditCommandParser.java:20-52 | a missing target name fails with the usage message, then a repeated prefix; otherwise an invalid target name fails with its message, then an invalid field with that field's message, then a descriptor with no field set is refused as not edited; in every other case the result is the command with the trimmed target name and the descriptor |
| Parsers.TagEditNeedsAField | src/main/java/seedu/address/logic/parser/TagEditCommandParser.java:47-49 | a name with no field to edit fails with the not-edited message |
| Parsers.TagEditRename | src/main/java/seedu/address/logic/parser/TagEditCommandParser.java:31-51 | a rename gives a descriptor setting only the trimmed new name |
| Parsers.ParseTagDelete | src/main/java/seedu/address/logic/parser/TagDeleteCommandParser.java:15-26 | succeeds iff the name is given once and valid, giving the command for the trimmed name |
| Parsers.TagDeleteRoundTrip | src/main/java/seedu/address/logic/parser/TagDeleteCommandParser.java:15-26 | a valid name with surrounding blanks parses to the command for that name |
| Storage.TagToModel | src/main/java/seedu/address/storage/JsonAdaptedTag.java:47-70 | a missing name fails with "Tag's name field is missing!"; the decode succeeds iff the name is present and the defaulted fields build a tag; a failure reports the first bad field |
| Storage.AdaptTag | src/main/java/seedu/address/storage/JsonAdaptedTag.java:38-40 | definition: the four fields of the tag, all present |
| Storage.TagStorageRoundTrip | src/main/java/seedu/address/storage/JsonAdaptedTag.java:38-70 | decoding the stored form of a constructed tag gives the tag back |
| Storage.MissingFieldsTakeDefaults | src/main/java/seedu/address/storage/JsonAdaptedTag.java:54-67 | a stored tag with only a name decodes to the default tag of that name |
| Storage.LoadAll | src/main/java/seedu/address/storage/JsonSerializableFindr.java:62-82 | a successful load decodes every element in order with no two of the same key; a failure is the duplicate message or some element's decode error |
| Storage.LoadAllOk | src/main/java/seedu/address/storage/JsonSerializableFindr.java:62-70 | the load succeeds iff every element decodes and no key repeats |
| Storage.LoadTags | src/main/java/seedu/address/storage/JsonSerializableFindr.java:62-70 | definition: the load keyed by the stored name compared exactly, with the duplicate-tag message |
| Storage.LoadPersons | src/main/java/seedu/address/storage/JsonSerializableFindr.java:76-82 | definition: the load keyed by candidate identity, with the duplicate-person message |
| Storage.LoadList | src/main/java/seedu/address/storage/JsonSerializableFindr.java:62-70 | the loop with its set of seen names computes `LoadAll` |
| Storage.FromProperties | src/main/java/seedu/address/storage/JsonSerializableFindr.java:35-41 | a missing tag list is read as empty |
| Storage.SaveTags | src/main/java/seedu/address/storage/JsonSerializableFindr.java:50 | saving copies the catalogue in order |
| Storage.SavePersons | src/main/java/seedu/address/storage/JsonSerializableFindr.java:49 | saving copies the candidates in order |
| Storage.Save | src/main/java/seedu/address/storage/JsonSerializableFindr.java:48-51 | definition: the saved candidates and the saved catalogue |
| Storage.ToModelType | src/main/java/seedu/address/storage/JsonSerializableFindr.java:58-84 | a bad tag or a repeated stored name fails as an illegal value; a case-variant pair fails unchecked in the catalogue; a person failure is reported; a success installs the tags, then the persons in file order through tag resolution |
| Storage.AddPersons | src/main/java/seedu/address/storage/JsonSerializableFindr.java:76-82 | persons are added in file order, each through resolution, and the first failure is reported |
| Storage.AddNewCandidate | src/main/java/seedu/address/storage/JsonSerializableFindr.java:78-81 | a candidate whose identity is present is reported and nothing changes; any other is appended with its tags resolved, the catalogue growing only by its unknown tags |
| Storage.SavedTagsLoad | src/main/java/seedu/address/storage/JsonSerializableFindr.java:50-70 | saving a unique catalogue of constructed tags and loading it gives the same catalogue |
| Storage.SavedPersonsLoad | src/main/java/seedu/address/storage/JsonSerializableFindr.java:49-82 | saving a unique candidate list and loading it gives the same list |
| Storage.ReloadChangesNothing | src/main/java/seedu/address/storage/JsonSerializableFindr.java:48-84 | loading a saved registry whose candidates use only catalogue tags gives back the same catalogue and candidates |
| Storage.CaseVariantsPassTagCheck | src/main/java/seedu/address/storage/JsonSerializableFindr.java:63-70 | "Friends" and "friends" pass the stored-name check although they share an identity |
| Storage.LoadTagsByIdentity | src/main/java/seedu/address/storage/JsonSerializableFindr.java:63-74 | a catalogue that passes the identity check is always accepted by the catalogue |
| Storage.IdentityCheckMeaning | src/main/java/seedu/address/storage/JsonSerializableFindr.java:63-74 | the identity check accepts exactly the loads that pass the name check and are unique by identity, with the same result |
| Storage.IdentityCheckRefusesCaseVariants | src/main/java/seedu/address/storage/JsonSerializableFindr.java:63-70 | the identity check refuses "Friends" and "friends" with the duplicate-tag message |
| CommandHistory.Saved | src/main/java/seedu/address/ui/CommandBox.java:165-181 | a blank command or a repeat of the last entry leaves the history alone; otherwise the command is appended and the oldest entry dropped beyond 50 |
| CommandHistory.Appended | src/main/java/seedu/address/ui/CommandBox.java:176-181 | the new command is last, the size grows by one up to 50, and the result is a suffix of the old history plus the command |
| CommandHistory.SavedKeepsClean | src/main/java/seedu/address/ui/CommandBox.java:165-181 | saving keeps the history free of blank entries and of equal neighbours |
| CommandHistory.Up | src/main/java/seedu/address/ui/CommandBox.java:116-138 | the index stays in range; an empty history or the oldest position changes nothing and reports "No previous command!"; from -1 the typed text is kept; otherwise the next older entry is shown |
| CommandHistory.Down | src/main/java/seedu/address/ui/CommandBox.java:143-160 | the index stays in range; at -1 nothing changes; from 0 the kept text returns; otherwise the next newer entry is shown |
| CommandHistory.UpThenDownRestoresInput | src/main/java/seedu/address/ui/CommandBox.java:123-158 | Up then Down from the new-command position restores the typed text |
| CommandHistory.DownUndoesUp | src/main/java/seedu/address/ui/CommandBox.java:133-153 | Down after a successful Up returns to the position and entry shown before |
| CommandHistory.UpWalksBack | src/main/java/seedu/address/ui/CommandBox.java:134-135 | k presses of Up show the k-th newest entry, stopping at the oldest |
| CommandHistory.CommandBox.constructor | src/main/java/seedu/address/ui/CommandBox.java:32-34 | starts at the new-command position with the loaded history, or an empty one |
| CommandHistory.CommandBox.SetText | src/main/java/seedu/address/ui/CommandBox.java:48-85 | a change of text clears the error style |
| CommandHistory.CommandBox.NavigateUp | src/main/java/seedu/address/ui/CommandBox.java:116-138 | the box moves as `Up` says |
| CommandHistory.CommandBox.NavigateDown | src/main/java/seedu/address/ui/CommandBox.java:143-160 | the box moves as `Down` says |
| CommandHistory.CommandBox.HandleKeyPressed | src/main/java/seedu/address/ui/CommandBox.java:103-111 | Up and Down navigate and any other key changes nothing |
| CommandHistory.CommandBox.SaveToHistory | src/main/java/seedu/address/ui/CommandBox.java:165-190 | the history becomes `Saved`, and it is handed to storage exactly when it changed |
| CommandHistory.CommandBox.ResetHistoryNavigation | src/main/java/seedu/address/ui/CommandBox.java:195-198 | back to the new-command position with no kept text |
| CommandHistory.CommandBox.HandleCommandEntered | src/main/java/seedu/address/ui/CommandBox.java:61-78 | empty text does nothing; success saves the command, clears the text and resets navigation; failure only sets the error style |

## Left out

- Persistence is left out. `JsonFindrStorage`, `StorageManager`, the search-history storage, Jackson and file I/O are not part of this model.
  - Stored persons are taken as already decoded values or errors, because `JsonAdaptedPerson` is not part of this model.
  - The search history handed to storage is returned as a value, and a storage failure is not modelled.
- `ArgumentTokenizer` and `ArgumentMultimap` are not part of this model.
  - An argument map is a preamble plus a function from prefix to the values given, in order.
  - `getValue` returns the last value.
  - `CliSyntax` is not part of this model, and prefixes are a datatype.
- The rate parser reads the rating from `r/` and the stage from `from/` only. The short stage prefix named in the usage text is not modelled.
- `StringUtil.isNonZeroUnsignedInteger` is not part of this model. It is taken as its documented predicate: ASCII digits only, no sign, a value above zero, at most `Integer.MAX_VALUE`.
- Text is ASCII throughout:
  - `\p{L}`, `\p{M}` and `\p{N}` in the name pattern are letters and digits;
  - `\b` is modelled for ASCII word characters only;
  - `toTitleCase`, `toUpperCase` and `toLowerCase` act on ASCII letters only;
  - `trim`, as in Java, removes leading and trailing characters whose code is at most that of a space.
- `Person` phone, email and address are opaque strings, because their validators are not part of this model.
  - `parseName`, `parsePhone`, `parseEmail` and `parseAddress` are left out.
  - `DateAdded` is an opaque token; a fresh date is passed in as a parameter.
- `Persons`: the tag set is a value, so the defensive copy at construction and the read-only view are implicit.
- `Persons.Person` keeps its tags as a set of tag values. Such a set can hold two tags that differ only in the case of the name. A Java `HashSet` would keep only one of them, because they are `equals`.
  - Tag sets the registry resolves against its catalogue never hold such a pair (`Registry.ResolvedTagsHaveNoDuplicates`).
  - Persons built elsewhere are not constrained. The lemmas relating `equals` to the hashed fields (`Persons.TagSetEqualsIffSameHashKey`, `Persons.PersonEqualsIffSameHashKey`, `Registry.RegistryHashFollowsEquals`) therefore require duplicate-free tag sets.
- Commands are values, so their `equals` is structural. `TagAddCommand` compares tags by tag equality, which ignores name case.
  - The `EditTagDescriptor` copy constructor is the identity on a value.
  - `toString` of commands is left out.
- `ModelManager` is reduced to `Models.Model`: the registry plus a display filter.
  - The JavaFX `FilteredList` and `SortedList` are not modelled.
  - The display filter is kept apart from the candidate order.
- `SortCommand`, `SortCommandParser` and `parseSortCriteria` are left out, because their execution returns nothing and their constant is missing.
- The JavaFX parts of the command box are left out: text field, caret position, style class list and feedback display.
  - The text and an error flag stand in for them.
  - The "No previous command!" message is returned as a value.
- `Registry.Findr.ResolveTagsForPerson` walks the tag set in an unspecified order, as the hash set does. Its contract is stated for every order.
- `Registry.RegistryHash` and `Registry.EqualRegistriesHashApart` model list hashes as polynomial hashes modulo 2^32 over given element hashes.
  - Element hash codes are parameters: a number per element for the hash as written, and a function of a candidate's hashed fields for the corrected hash.
  - The exact signed 32-bit wrap of `int` is modelled as a value in [0, 2^32).
- `TagListing.ListTags` writes both `System.lineSeparator()` and the `%n` of the format string as a single line feed. Platforms with a different line separator are not modelled.
- Logging, `assert` statements and `requireNonNull` checks are left out; null arguments cannot occur in the model.
- `Persons.PersonEqualsIffSameHashKey` states that equality and the hashed fields agree. It does not compute `Objects.hash`.

## Findings

| source | as written | input that shows it | evidently intended | confidence | as-written member | corrected member |
|---|---|---|---|---|---|---|
| src/main/java/seedu/address/storage/JsonSerializableFindr.java:63-73 | the duplicate-tag check compares stored names exactly, but the catalogue compares them ignoring case | stored tags "Friends" and "friends" pass the check; `setTags` then fails with an unchecked duplicate-tag error instead of the illegal-value message | refuse tags of the same identity with "Tag list contains duplicate tag(s)." | not executed | Storage.CaseVariantsPassTagCheck | Storage.IdentityCheckRefusesCaseVariants |
| src/main/java/seedu/address/model/Findr.java:228-246 | `equals` compares only the candidates, but `hashCode` also mixes in the tag catalogue | two registries with the same candidates, one with an extra tag, are `equals` yet hash apart | hash only what `equals` compares | not executed | Registry.EqualRegistriesHashApart | Registry.RegistryHashFollowsEquals |
