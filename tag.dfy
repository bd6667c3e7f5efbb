/**
 * A tag of the tag catalogue: a name that identifies it regardless of case,
 * plus a category, a colour and a description.
 */
module Tags {
  import opened Text

  const NameConstraintsMessage := "Tag names must contain only letters and digits, without spaces or special characters. Tag names are case-insensitive."
  const ColourConstraintsMessage := "Tag colours should be valid hex codes (e.g. #A1B2C3)."
  const CategoryConstraintsMessage := "Tag categories should start with an alphanumeric character and may contain spaces."
  const DescriptionConstraintsMessage := "Tag descriptions should be 200 characters or fewer."

  const DescriptionMaxLength := 200
  const DefaultCategory := "General"
  const DefaultColour := "#7A7A7A"
  const DefaultDescription := ""

  datatype Tag = Tag(tagName: string, category: string, colour: string, description: string)

  /** The argument checks of the full constructor, in the order it makes them. */
  datatype TagError = InvalidName | InvalidCategory | InvalidColour | InvalidDescription

  function ErrorMessage(e: TagError): string
  {
    match e
    case InvalidName => NameConstraintsMessage
    case InvalidCategory => CategoryConstraintsMessage
    case InvalidColour => ColourConstraintsMessage
    case InvalidDescription => DescriptionConstraintsMessage
  }

  /** `\p{Alnum}+` */
  predicate IsValidTagName(s: string)
  {
    |s| > 0 && forall i :: 0 <= i < |s| ==> IsAlnum(s[i])
  }

  /** `[\p{Alnum}](?:[ \p{Alnum}])*` */
  predicate IsValidCategory(s: string)
  {
    |s| > 0 && IsAlnum(s[0]) && forall i :: 0 <= i < |s| ==> IsAlnum(s[i]) || s[i] == ' '
  }

  /** `^#(?:[0-9a-fA-F]{6})$` */
  predicate IsValidColour(s: string)
  {
    |s| == 7 && s[0] == '#' && forall i :: 1 <= i < 7 ==> IsHexDigit(s[i])
  }

  predicate IsValidDescription(s: string)
  {
    |s| <= DescriptionMaxLength
  }

  /**
   * The full constructor: each argument is checked in turn and the first
   * failing check is reported; the name is kept as given, category and
   * description are trimmed and the colour is upper-cased.
   */
  function MakeTag(name: string, category: string, colour: string, description: string): (r: Result<Tag, TagError>)
    ensures r.Ok? <==> IsValidTagName(name) && IsValidCategory(category) && IsValidColour(colour) && IsValidDescription(description)
    ensures r.Err? ==> r.error == FirstFailure(name, category, colour, description)
    ensures r.Ok? ==> NormalTag(r.value) && r.value.tagName == name && EqualsIgnoreCase(r.value.colour, colour)
    ensures r.Ok? ==> r.value.category == Trim(category) && r.value.colour == ToUpper(colour) && r.value.description == Trim(description)
  {
    if !IsValidTagName(name) then Err(InvalidName)
    else if !IsValidCategory(category) then Err(InvalidCategory)
    else if !IsValidColour(colour) then Err(InvalidColour)
    else if !IsValidDescription(description) then Err(InvalidDescription)
    else
      UpperIgnoresCase(colour);
      Ok(Tag(name, TrimmedCategory(category), ToUpper(colour), Trim(description)))
  }

  /** Which check fails first; a reference for the order of the checks. */
  function FirstFailure(name: string, category: string, colour: string, description: string): TagError
  {
    if !IsValidTagName(name) then InvalidName
    else if !IsValidCategory(category) then InvalidCategory
    else if !IsValidColour(colour) then InvalidColour
    else InvalidDescription
  }

  /** `category.trim()` of a valid category: it has no leading blank, so only trailing blanks go. */
  function TrimmedCategory(category: string): (r: string)
    requires IsValidCategory(category)
    ensures |r| <= |category| && r == category[..|r|]
    ensures IsValidCategory(r) && r[|r| - 1] != ' '
    ensures forall i :: |r| <= i < |category| ==> category[i] == ' '
  {
    var r := Trim(category);
    assert r == category[..|r|];
    assert r != [] by {
      assert !IsTrimmable(category[0]);
      assert TrimEnd(category)[0] == category[0];
    }
    r
  }

  /** Upper-casing keeps a string equal to itself ignoring case. */
  lemma UpperIgnoresCase(s: string)
    ensures EqualsIgnoreCase(ToUpper(s), s)
  {
    forall i | 0 <= i < |s| ensures ToLowerChar(ToUpper(s)[i]) == ToLowerChar(s[i]) {
      LowerOfUpperChar(s[i]);
    }
    assert ToLower(ToUpper(s)) == ToLower(s);
    EqualsIgnoreCaseIsLowerEquality(ToUpper(s), s);
  }

  /** `new Tag(name)`: the one-argument constructor with the default fields. */
  function DefaultTag(name: string): (r: Result<Tag, TagError>)
    ensures r.Ok? <==> IsValidTagName(name)
    ensures r.Ok? ==> r.value == Tag(name, DefaultCategory, DefaultColour, DefaultDescription) && NormalTag(r.value)
    ensures r.Err? ==> r.error == InvalidName
  {
    if IsValidTagName(name) then
      DefaultsAreNormal(name);
      Ok(Tag(name, DefaultCategory, DefaultColour, DefaultDescription))
    else
      Err(InvalidName)
  }

  /** The one-argument constructor delegates to the full one with the default values. */
  lemma DefaultTagDelegates(name: string)
    ensures DefaultTag(name) == MakeTag(name, DefaultCategory, DefaultColour, DefaultDescription)
  {
    if IsValidTagName(name) {
      DefaultsAreNormal(name);
      RebuildNormalTag(Tag(name, DefaultCategory, DefaultColour, DefaultDescription));
    }
  }

  lemma DefaultsAreNormal(name: string)
    requires IsValidTagName(name)
    ensures NormalTag(Tag(name, DefaultCategory, DefaultColour, DefaultDescription))
  {
    assert IsValidCategory(DefaultCategory);
    assert DefaultCategory[|DefaultCategory| - 1] != ' ';
    assert IsValidColour(DefaultColour);
    assert forall i :: 0 <= i < |DefaultColour| ==> !IsLower(DefaultColour[i]);
    assert Trim(DefaultDescription) == DefaultDescription;
  }

  /** What every constructed tag satisfies: valid fields, already trimmed and upper-cased. */
  predicate NormalTag(t: Tag)
  {
    IsValidTagName(t.tagName) &&
    IsValidCategory(t.category) && t.category[|t.category| - 1] != ' ' &&
    IsValidColour(t.colour) && (forall i :: 0 <= i < |t.colour| ==> !IsLower(t.colour[i])) &&
    IsValidDescription(t.description) && Trim(t.description) == t.description
  }

  /** Rebuilding a constructed tag from its own fields gives the same tag. */
  lemma RebuildNormalTag(t: Tag)
    requires NormalTag(t)
    ensures MakeTag(t.tagName, t.category, t.colour, t.description) == Ok(t)
  {
    NormalFieldsFixed(t);
  }

  /** The normalisations the constructor applies leave a constructed tag's fields as they are. */
  lemma NormalFieldsFixed(t: Tag)
    requires NormalTag(t)
    ensures Trim(t.category) == t.category && ToUpper(t.colour) == t.colour && Trim(t.description) == t.description
  {
    var n := |t.category|;
    assert IsAlnum(t.category[n - 1]);
    TrimOfTrimmed(t.category);
    assert ToUpper(t.colour) == t.colour by {
      forall i | 0 <= i < |t.colour| ensures ToUpper(t.colour)[i] == t.colour[i] {
        assert !IsLower(t.colour[i]);
      }
    }
  }

  /** The identity of a tag: its name, lower-cased. */
  function TagKey(t: Tag): string
  {
    ToLower(t.tagName)
  }

  /** "Friends" and "friends" name the same tag. */
  lemma FriendsSameIdentity()
    ensures ToLower("Friends") == ToLower("friends")
  {
    var a, b := "Friends", "friends";
    forall i | 0 <= i < 7 ensures ToLower(a)[i] == ToLower(b)[i] {
      if i == 0 {
        assert ToLowerChar('F') == 'f';
      } else {
        assert a[i] == b[i];
      }
    }
  }

  /** `isSameTag`: identity is the name, ignoring case. */
  predicate IsSameTag(a: Tag, b: Tag)
    ensures IsSameTag(a, b) <==> TagKey(a) == TagKey(b)
  {
    EqualsIgnoreCaseIsLowerEquality(a.tagName, b.tagName);
    EqualsIgnoreCase(a.tagName, b.tagName)
  }

  /** `equals`: the name ignoring case, and the other three fields exactly; equal tags are the same tag. */
  predicate TagEquals(a: Tag, b: Tag)
    ensures TagEquals(a, b) ==> IsSameTag(a, b)
  {
    EqualsIgnoreCase(a.tagName, b.tagName) && a.category == b.category &&
    a.colour == b.colour && a.description == b.description
  }

  /** The data `hashCode` is computed from. */
  function TagHashKey(t: Tag): (string, string, string, string)
  {
    (ToLower(t.tagName), t.category, t.colour, t.description)
  }

  /** `equals` and `hashCode` agree: two tags are equal exactly when their hash data agree. */
  lemma TagEqualsIffSameHashKey(a: Tag, b: Tag)
    ensures TagEquals(a, b) <==> TagHashKey(a) == TagHashKey(b)
  {
    EqualsIgnoreCaseIsLowerEquality(a.tagName, b.tagName);
  }

  /** `toString` */
  function TagToString(t: Tag): (r: string)
    ensures |r| == |t.tagName| + 2 && r[0] == '[' && r[|r| - 1] == ']'
    ensures r[1..|r| - 1] == t.tagName
  {
    "[" + t.tagName + "]"
  }
}
