/**
 * The argument parsers shared by the command parsers: each trims its input,
 * validates it with the model's own rule, and either gives the value or the
 * rule's message.
 */
module ParserUtil {
  import opened Text
  import opened Tags
  import opened Stages
  import opened Models

  const InvalidIndexMessage := "Index is not a non-zero unsigned integer."
  /** `Integer.MAX_VALUE`, the largest index `Integer.parseInt` accepts. */
  const MaxInt := 0x7FFF_FFFF

  /**
   * `StringUtil.isNonZeroUnsignedInteger`, which is not part of this model,
   * as its documentation states it: decimal digits only, no sign and no
   * blanks, with a value from 1 to `Integer.MAX_VALUE`.
   */
  predicate IsNonZeroUnsignedInteger(s: string)
  {
    s != [] && AllDigits(s) && 0 < DigitsValue(s) <= MaxInt
  }

  /** `parseIndex`: the trimmed input as a one-based index. */
  function ParseIndex(oneBased: string): (r: Result<Index, string>)
    ensures r.Ok? <==> IsNonZeroUnsignedInteger(Trim(oneBased))
    ensures r.Ok? ==> OneBased(r.value) == DigitsValue(Trim(oneBased)) <= MaxInt
    ensures r.Err? ==> r.error == InvalidIndexMessage
  {
    var trimmed := Trim(oneBased);
    if !IsNonZeroUnsignedInteger(trimmed) then Err(InvalidIndexMessage)
    else Ok(FromOneBased(DigitsValue(trimmed)))
  }

  /** Parsing the printed one-based number of an index gives the index back. */
  lemma ParseIndexRoundTrip(i: Index)
    requires OneBased(i) <= MaxInt
    ensures ParseIndex(NatToDecimal(OneBased(i))) == Ok(i)
  {
    var s := NatToDecimal(OneBased(i));
    TrimOfSolid(s);
    DecimalRoundTrip(OneBased(i));
  }

  /** Zero is not an index. */
  lemma ParseIndexRejectsZero()
    ensures ParseIndex("0") == Err(InvalidIndexMessage)
  {
    TrimOfSolid("0");
  }

  /** A sign is not a digit: neither a negative nor an explicitly positive number is an index. */
  lemma ParseIndexRejectsSigns()
    ensures ParseIndex("-1") == Err(InvalidIndexMessage)
    ensures ParseIndex("+1") == Err(InvalidIndexMessage)
  {
    TrimOfSolid("-1");
    TrimOfSolid("+1");
  }

  /** Blanks around the number are trimmed away. */
  lemma ParseIndexTrims(i: Index, before: string, after: string)
    requires OneBased(i) <= MaxInt
    requires forall k :: 0 <= k < |before| ==> IsTrimmable(before[k])
    requires forall k :: 0 <= k < |after| ==> IsTrimmable(after[k])
    ensures ParseIndex(before + NatToDecimal(OneBased(i)) + after) == Ok(i)
  {
    var d := NatToDecimal(OneBased(i));
    TrimAround(before, d, after);
    TrimOfSolid(d);
    DecimalRoundTrip(OneBased(i));
  }

  /** `parseTagName`: the trimmed name, when it is a valid tag name. */
  function ParseTagName(tagName: string): (r: Result<string, string>)
    ensures r.Ok? <==> IsValidTagName(Trim(tagName))
    ensures r.Ok? ==> r.value == Trim(tagName)
    ensures r.Err? ==> r.error == NameConstraintsMessage
  {
    var trimmed := Trim(tagName);
    if IsValidTagName(trimmed) then Ok(trimmed) else Err(NameConstraintsMessage)
  }

  /** The tag a name stands for: its trimmed form with the default fields. */
  function NamedTag(name: string): Tag
  {
    Tag(Trim(name), DefaultCategory, DefaultColour, DefaultDescription)
  }

  /** A valid name parses to itself. */
  lemma TagNameParses(name: string)
    requires IsValidTagName(name)
    ensures ParseTagName(name) == Ok(name)
  {
    TrimOfSolid(name);
  }

  /** `parseTag`: the trimmed name as a tag with the default fields. */
  function ParseTag(tag: string): (r: Result<Tag, string>)
    ensures r.Ok? <==> IsValidTagName(Trim(tag))
    ensures r.Ok? ==> r.value == NamedTag(tag) && NormalTag(r.value)
    ensures r.Err? ==> r.error == NameConstraintsMessage
  {
    var trimmed := Trim(tag);
    if IsValidTagName(trimmed) then
      DefaultsAreNormal(trimmed);
      Ok(NamedTag(tag))
    else Err(NameConstraintsMessage)
  }

  /** `parseTagCategory`: the trimmed category, when it is valid. */
  function ParseTagCategory(category: string): (r: Result<string, string>)
    ensures r.Ok? <==> IsValidCategory(Trim(category))
    ensures r.Ok? ==> r.value == Trim(category)
    ensures r.Err? ==> r.error == CategoryConstraintsMessage
  {
    var trimmed := Trim(category);
    if IsValidCategory(trimmed) then Ok(trimmed) else Err(CategoryConstraintsMessage)
  }

  /** `parseTagColour`: the trimmed colour, when it is valid; its case is kept. */
  function ParseTagColour(colour: string): (r: Result<string, string>)
    ensures r.Ok? <==> IsValidColour(Trim(colour))
    ensures r.Ok? ==> r.value == Trim(colour)
    ensures r.Err? ==> r.error == ColourConstraintsMessage
  {
    var trimmed := Trim(colour);
    if IsValidColour(trimmed) then Ok(trimmed) else Err(ColourConstraintsMessage)
  }

  /** `parseTagDescription`: the trimmed description, when it is short enough. */
  function ParseTagDescription(description: string): (r: Result<string, string>)
    ensures r.Ok? <==> |Trim(description)| <= DescriptionMaxLength
    ensures r.Ok? ==> r.value == Trim(description)
    ensures r.Err? ==> r.error == DescriptionConstraintsMessage
  {
    var trimmed := Trim(description);
    if IsValidDescription(trimmed) then Ok(trimmed) else Err(DescriptionConstraintsMessage)
  }

  /** A lower-case colour is accepted as written; only the tag constructor upper-cases it. */
  lemma ColourCaseKept()
    ensures ParseTagColour("#a1b2c3") == Ok("#a1b2c3")
  {
    TrimOfSolid("#a1b2c3");
  }

  /** `parseStage`: the trimmed input as a stage. */
  function ParseStage(stage: string): (r: Result<Stage, string>)
    ensures r.Err? ==> r.error == StageConstraintsMessage
  {
    var trimmed := Trim(stage);
    if !IsValidStage(trimmed) then Err(StageConstraintsMessage)
    else FromString(trimmed)
  }

  /** Trimming first changes nothing: parsing a stage is `Stage.fromString`. */
  lemma ParseStageIsFromString(stage: string)
    ensures ParseStage(stage) == FromString(stage)
  {
    TrimIdempotent(stage);
  }

  /** Only a non-empty word can name a stage. */
  lemma ParseStageNonEmpty(stage: string)
    ensures ParseStage(stage).Ok? ==> stage != []
  {
    if stage == [] {
      ParseStageIsFromString(stage);
      StageRejects();
    }
  }

  /** A stage's display name parses back to the stage. */
  lemma DisplayNameParses(stage: Stage)
    ensures ParseStage(DisplayName(stage)) == Ok(stage)
  {
    StageRoundTrip(stage);
    ParseStageIsFromString(DisplayName(stage));
  }

  // ---------------------------------------------------------------------------
  // parseTags

  /** The hash data of the tags held. */
  function HashKeys(s: set<Tag>): set<(string, string, string, string)>
  {
    set u | u in s :: TagHashKey(u)
  }

  /** `HashSet.add`: a tag equal to one already held is dropped. */
  function SetAdd(s: set<Tag>, t: Tag): (r: set<Tag>)
    ensures TagHashKey(t) in HashKeys(s) ==> r == s
    ensures TagHashKey(t) !in HashKeys(s) ==> r == s + {t}
  {
    if TagHashKey(t) in HashKeys(s) then s else s + {t}
  }

  /** Adding keeps a set free of equal tags, and the held hash data gain exactly the new tag's. */
  lemma SetAddMeaning(s: set<Tag>, t: Tag)
    requires Persons.NoTagDuplicates(s)
    ensures Persons.NoTagDuplicates(SetAdd(s, t))
    ensures HashKeys(SetAdd(s, t)) == HashKeys(s) + {TagHashKey(t)}
  {
    var r := SetAdd(s, t);
    forall a, b | a in r && b in r && TagEquals(a, b) ensures a == b {
      TagEqualsIffSameHashKey(a, b);
    }
  }

  /**
   * `parseTags` as a fold: the names are parsed in order with `parse` and
   * their tags added to the set; the first failure is the result.
   */
  function ParsedWith(names: seq<string>, parse: string -> Result<Tag, string>): Result<set<Tag>, string>
  {
    if names == [] then Ok({})
    else
      match ParsedWith(names[..|names| - 1], parse)
      case Err(e) => Err(e)
      case Ok(s) =>
        match parse(names[|names| - 1])
        case Err(e) => Err(e)
        case Ok(t) => Ok(SetAdd(s, t))
  }

  /** The tags of the names, parsed one by one. */
  function ParsedTags(names: seq<string>): Result<set<Tag>, string>
  {
    ParsedWith(names, ParseTag)
  }

  /** The hash data of the tags the names parse to. */
  function ParsedHashKeys(names: seq<string>, parse: string -> Result<Tag, string>): set<(string, string, string, string)>
  {
    set i | 0 <= i < |names| && parse(names[i]).Ok? :: TagHashKey(parse(names[i]).value)
  }

  lemma ParsedHashKeysSnoc(p: seq<string>, n: string, parse: string -> Result<Tag, string>)
    requires parse(n).Ok?
    ensures ParsedHashKeys(p + [n], parse) == ParsedHashKeys(p, parse) + {TagHashKey(parse(n).value)}
  {
    var names := p + [n];
    forall k | k in ParsedHashKeys(names, parse) ensures k in ParsedHashKeys(p, parse) + {TagHashKey(parse(n).value)} {
      var i :| 0 <= i < |names| && parse(names[i]).Ok? && k == TagHashKey(parse(names[i]).value);
      if i < |p| {
        assert names[i] == p[i];
      }
    }
    forall k | k in ParsedHashKeys(p, parse) ensures k in ParsedHashKeys(names, parse) {
      var i :| 0 <= i < |p| && parse(p[i]).Ok? && k == TagHashKey(parse(p[i]).value);
      assert names[i] == p[i];
    }
    assert names[|p|] == n;
  }

  /** Parsing fails exactly when some name fails to parse, and then with that name's error. */
  lemma {:induction false} ParsedWithFailure(names: seq<string>, parse: string -> Result<Tag, string>)
    ensures ParsedWith(names, parse).Ok? <==> forall i :: 0 <= i < |names| ==> parse(names[i]).Ok?
    ensures ParsedWith(names, parse).Err? ==>
      exists i :: 0 <= i < |names| && parse(names[i]) == Err(ParsedWith(names, parse).error)
    decreases |names|
  {
    if names != [] {
      var p := names[..|names| - 1];
      var n := names[|names| - 1];
      ParsedWithFailure(p, parse);
      assert forall i :: 0 <= i < |p| ==> p[i] == names[i];
      if ParsedWith(p, parse).Err? {
        var i :| 0 <= i < |p| && parse(p[i]) == Err(ParsedWith(p, parse).error);
        assert parse(names[i]) == Err(ParsedWith(names, parse).error);
      } else if parse(n).Err? {
        assert parse(names[|p|]) == Err(ParsedWith(names, parse).error);
      }
    }
  }

  /**
   * A successful parse holds no two equal tags, its hash data are those of
   * the parsed names, and every tag in it is one of the parsed names' tags.
   */
  lemma {:induction false} ParsedWithMeaning(names: seq<string>, parse: string -> Result<Tag, string>)
    requires ParsedWith(names, parse).Ok?
    ensures Persons.NoTagDuplicates(ParsedWith(names, parse).value)
    ensures HashKeys(ParsedWith(names, parse).value) == ParsedHashKeys(names, parse)
    ensures forall u :: u in ParsedWith(names, parse).value ==>
      exists i :: 0 <= i < |names| && parse(names[i]) == Ok(u)
    decreases |names|
  {
    if names != [] {
      var p := names[..|names| - 1];
      var n := names[|names| - 1];
      assert names == p + [n];
      ParsedWithMeaning(p, parse);
      var s := ParsedWith(p, parse).value;
      var t := parse(n).value;
      SetAddMeaning(s, t);
      ParsedHashKeysSnoc(p, n, parse);
      forall u | u in SetAdd(s, t) ensures exists i :: 0 <= i < |names| && parse(names[i]) == Ok(u) {
        if u == t {
          assert parse(names[|p|]) == Ok(u);
        } else {
          var i :| 0 <= i < |p| && parse(p[i]) == Ok(u);
          assert names[i] == p[i];
        }
      }
    }
  }

  /**
   * `parseTags` fails exactly when some name is not a valid tag name once
   * trimmed, with the name rule's message; otherwise it gives a set with
   * no two equal tags, holding one default tag per name up to case.
   */
  lemma ParsedTagsMeaning(names: seq<string>)
    ensures ParsedTags(names).Ok? <==> forall i :: 0 <= i < |names| ==> IsValidTagName(Trim(names[i]))
    ensures ParsedTags(names).Err? ==> ParsedTags(names).error == NameConstraintsMessage
    ensures ParsedTags(names).Ok? ==>
      && Persons.NoTagDuplicates(ParsedTags(names).value)
      && HashKeys(ParsedTags(names).value) == ParsedHashKeys(names, ParseTag)
      && forall u :: u in ParsedTags(names).value ==> exists i :: 0 <= i < |names| && u == NamedTag(names[i])
  {
    ParsedWithFailure(names, ParseTag);
    if ParsedTags(names).Ok? {
      ParsedWithMeaning(names, ParseTag);
    }
  }

  /** Names differing only in letter case collapse to one tag, the first given. */
  lemma CaseVariantsCollapse()
    ensures ParsedTags(["Friends", "friends"]) == Ok({NamedTag("Friends")})
  {
    FriendsParses("Friends");
    FriendsParses("friends");
    FriendsSameIdentity();
    TwoNamesOneTag("Friends", "friends", ParseTag, NamedTag("Friends"), NamedTag("friends"));
  }

  /** A seven-letter name with no surrounding blanks parses to the default tag of that name. */
  lemma FriendsParses(name: string)
    requires name == "Friends" || name == "friends"
    ensures ParseTag(name) == Ok(NamedTag(name))
    ensures Trim(name) == name
  {
    TrimOfTrimmed(name);
  }

  /** Two names whose tags are equal parse to the set of the first tag alone. */
  lemma TwoNamesOneTag(x: string, y: string, parse: string -> Result<Tag, string>, a: Tag, b: Tag)
    requires parse(x) == Ok(a) && parse(y) == Ok(b)
    requires TagHashKey(b) == TagHashKey(a)
    ensures ParsedWith([x, y], parse) == Ok({a})
  {
    var one := [x];
    assert one[..0] == [];
    assert SetAdd({}, a) == {a} by {
      assert HashKeys({}) == {};
    }
    assert ParsedWith(one, parse) == Ok({a});
    assert [x, y][..1] == one;
    assert TagHashKey(b) in HashKeys({a});
  }

  /**
   * `parseTags`: each name is parsed in order and added to a hash set; the
   * first invalid name fails the lot.
   */
  method ParseTags(names: seq<string>) returns (r: Result<set<Tag>, string>)
    ensures r == ParsedTags(names)
  {
    var tagSet: set<Tag> := {};
    var i := 0;
    while i < |names|
      invariant 0 <= i <= |names|
      invariant ParsedWith(names[..i], ParseTag) == Ok(tagSet)
    {
      assert names[..i + 1][..i] == names[..i];
      var t := ParseTag(names[i]);
      if t.Err? {
        assert ParsedWith(names[..i + 1], ParseTag).Err?;
        PrefixFailure(names, i + 1);
        return Err(t.error);
      }
      tagSet := SetAdd(tagSet, t.value);
      i := i + 1;
    }
    assert names[..i] == names;
    return Ok(tagSet);
  }

  /** Once a prefix of the names fails to parse, so do all the names. */
  lemma {:induction false} PrefixFailure(names: seq<string>, k: nat)
    requires k <= |names| && ParsedWith(names[..k], ParseTag).Err?
    ensures ParsedWith(names, ParseTag) == ParsedWith(names[..k], ParseTag)
    decreases |names| - k
  {
    if k == |names| {
      assert names[..k] == names;
    } else {
      assert names[..k + 1][..k] == names[..k];
      PrefixFailure(names, k + 1);
    }
  }
}
