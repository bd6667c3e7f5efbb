/** The rating given to a candidate. */
module Ratings {
  import opened Text

  const RatingConstraintsMessage := "Rating should be one of: Unrated, Very Poor, Poor, Average, Good, Excellent (case-insensitive)"

  datatype Rating = Unrated | VeryPoor | Poor | Average | Good | Excellent

  /** `values()`, in declaration order. */
  const AllRatings: seq<Rating> := [Unrated, VeryPoor, Poor, Average, Good, Excellent]

  function EnumName(r: Rating): string
  {
    match r
    case Unrated => "UNRATED"
    case VeryPoor => "VERY_POOR"
    case Poor => "POOR"
    case Average => "AVERAGE"
    case Good => "GOOD"
    case Excellent => "EXCELLENT"
  }

  /** `getDisplayName`, which is also `toString`. */
  function DisplayName(r: Rating): string
  {
    match r
    case Unrated => "Unrated"
    case VeryPoor => "Very Poor"
    case Poor => "Poor"
    case Average => "Average"
    case Good => "Good"
    case Excellent => "Excellent"
  }

  /** `Rating.valueOf`: the constant whose name is exactly the argument. */
  function ValueOf(name: string): (r: Option<Rating>)
    ensures r.Some? ==> EnumName(r.value) == name
    ensures r.None? ==> forall x: Rating :: EnumName(x) != name
  {
    if name == "UNRATED" then Some(Unrated)
    else if name == "VERY_POOR" then Some(VeryPoor)
    else if name == "POOR" then Some(Poor)
    else if name == "AVERAGE" then Some(Average)
    else if name == "GOOD" then Some(Good)
    else if name == "EXCELLENT" then Some(Excellent)
    else None
  }

  /** `replace(' ', '_')` */
  function Underscored(s: string): (r: string)
    ensures |r| == |s|
    ensures forall i :: 0 <= i < |s| ==> r[i] == (if s[i] == ' ' then '_' else s[i])
  {
    seq(|s|, i requires 0 <= i < |s| => if s[i] == ' ' then '_' else s[i])
  }

  /** The first rating, in declaration order, whose display name equals the text ignoring case. */
  function DisplayMatch(trimmed: string): (r: Option<Rating>)
    ensures r.Some? ==> EqualsIgnoreCase(DisplayName(r.value), trimmed)
    ensures r.None? ==> forall x: Rating :: !EqualsIgnoreCase(DisplayName(x), trimmed)
  {
    if EqualsIgnoreCase("Unrated", trimmed) then Some(Unrated)
    else if EqualsIgnoreCase("Very Poor", trimmed) then Some(VeryPoor)
    else if EqualsIgnoreCase("Poor", trimmed) then Some(Poor)
    else if EqualsIgnoreCase("Average", trimmed) then Some(Average)
    else if EqualsIgnoreCase("Good", trimmed) then Some(Good)
    else if EqualsIgnoreCase("Excellent", trimmed) then Some(Excellent)
    else None
  }

  /** The enum-name key: `trimmed.toUpperCase().replace(' ', '_')`. */
  function EnumKey(trimmed: string): string
  {
    Underscored(ToUpper(trimmed))
  }

  /**
   * `fromString`: blank input fails; otherwise the enum-name lookup on the
   * upper-cased text with blanks as underscores, then the display-name match.
   */
  function ParseRating(text: string): (r: Result<Rating, string>)
    ensures r.Err? ==> r.error == RatingConstraintsMessage
    ensures Trim(text) == [] ==> r.Err?
    ensures r.Ok? ==> EnumName(r.value) == EnumKey(Trim(text)) || EqualsIgnoreCase(DisplayName(r.value), Trim(text))
  {
    var trimmed := Trim(text);
    if trimmed == [] then Err(RatingConstraintsMessage)
    else match ValueOf(EnumKey(trimmed))
      case Some(x) => Ok(x)
      case None =>
        match DisplayMatch(trimmed)
        case Some(x) => Ok(x)
        case None => Err(RatingConstraintsMessage)
  }

  /**
   * What `fromString` accepts: any spelling whose trimmed, upper-cased form
   * with blanks as underscores is a constant's name gives that constant, any
   * case variant of a display name is accepted, and a failure means the text
   * is neither for any rating.
   */
  lemma ParseRatingAccepts(text: string, x: Rating)
    ensures EnumName(x) == EnumKey(Trim(text)) ==> ParseRating(text) == Ok(x)
    ensures EqualsIgnoreCase(DisplayName(x), Trim(text)) ==> ParseRating(text).Ok?
    ensures ParseRating(text).Err? ==> EnumName(x) != EnumKey(Trim(text)) && !EqualsIgnoreCase(DisplayName(x), Trim(text))
  {
    var t := Trim(text);
    if EnumName(x) == EnumKey(t) {
      KeyParses(text, x);
    }
    if EqualsIgnoreCase(DisplayName(x), t) {
      DisplaySpellingParses(text, x);
    }
  }

  /** A text whose key is a constant's name parses to that constant. */
  lemma KeyParses(text: string, x: Rating)
    requires EnumName(x) == EnumKey(Trim(text))
    ensures ParseRating(text) == Ok(x)
  {
    var t := Trim(text);
    assert |t| == |EnumKey(t)| > 0;
    var found := ValueOf(EnumKey(t));
    assert found.Some?;
    EnumNameInjective(x, found.value);
  }

  /** A case variant of a display name parses, by name or by the display-name search. */
  lemma DisplaySpellingParses(text: string, x: Rating)
    requires EqualsIgnoreCase(DisplayName(x), Trim(text))
    ensures ParseRating(text).Ok?
  {
    var t := Trim(text);
    assert |t| == |DisplayName(x)| > 0;
    if ValueOf(EnumKey(t)).None? {
      assert DisplayMatch(t).Some?;
    }
  }

  /** Distinct constants have distinct names. */
  lemma EnumNameInjective(x: Rating, y: Rating)
    requires EnumName(x) == EnumName(y)
    ensures x == y
  {
  }

  /** `fromString` as written: the try/catch, then the loop over `values()`. */
  method FromString(text: string) returns (r: Result<Rating, string>)
    ensures r == ParseRating(text)
  {
    var trimmed := Trim(text);
    if trimmed == [] {
      return Err(RatingConstraintsMessage);
    }
    var normalized := Underscored(ToUpper(trimmed));
    var byName := ValueOf(normalized);
    if byName.Some? {
      return Ok(byName.value);
    }
    var byDisplay := SearchDisplayNames(trimmed);
    if byDisplay.Some? {
      return Ok(byDisplay.value);
    }
    return Err(RatingConstraintsMessage);
  }

  /** The catch block's loop: the first rating of `values()` whose display name matches. */
  method SearchDisplayNames(trimmed: string) returns (r: Option<Rating>)
    ensures r == DisplayMatch(trimmed)
  {
    var i := 0;
    while i < |AllRatings|
      invariant 0 <= i <= |AllRatings|
      invariant forall j :: 0 <= j < i ==> !EqualsIgnoreCase(DisplayName(AllRatings[j]), trimmed)
    {
      if EqualsIgnoreCase(DisplayName(AllRatings[i]), trimmed) {
        DisplayMatchIsFirst(trimmed, i);
        return Some(AllRatings[i]);
      }
      i := i + 1;
    }
    DisplayMatchNone(trimmed);
    return None;
  }

  /** The match of the loop is the first match in declaration order. */
  lemma DisplayMatchIsFirst(trimmed: string, i: nat)
    requires i < |AllRatings|
    requires EqualsIgnoreCase(DisplayName(AllRatings[i]), trimmed)
    requires forall j :: 0 <= j < i ==> !EqualsIgnoreCase(DisplayName(AllRatings[j]), trimmed)
    ensures DisplayMatch(trimmed) == Some(AllRatings[i])
  {
    if i > 0 { assert !EqualsIgnoreCase(DisplayName(AllRatings[0]), trimmed); }
    if i > 1 { assert !EqualsIgnoreCase(DisplayName(AllRatings[1]), trimmed); }
    if i > 2 { assert !EqualsIgnoreCase(DisplayName(AllRatings[2]), trimmed); }
    if i > 3 { assert !EqualsIgnoreCase(DisplayName(AllRatings[3]), trimmed); }
    if i > 4 { assert !EqualsIgnoreCase(DisplayName(AllRatings[4]), trimmed); }
  }

  /** A loop that found no display name means no rating matches. */
  lemma DisplayMatchNone(trimmed: string)
    requires forall j :: 0 <= j < |AllRatings| ==> !EqualsIgnoreCase(DisplayName(AllRatings[j]), trimmed)
    ensures DisplayMatch(trimmed) == None
  {
    assert !EqualsIgnoreCase(DisplayName(AllRatings[0]), trimmed);
    assert !EqualsIgnoreCase(DisplayName(AllRatings[1]), trimmed);
    assert !EqualsIgnoreCase(DisplayName(AllRatings[2]), trimmed);
    assert !EqualsIgnoreCase(DisplayName(AllRatings[3]), trimmed);
    assert !EqualsIgnoreCase(DisplayName(AllRatings[4]), trimmed);
    assert !EqualsIgnoreCase(DisplayName(AllRatings[5]), trimmed);
  }

  /** `isValidRating`: `fromString` does not fail. */
  predicate IsValidRating(text: string)
  {
    ParseRating(text).Ok?
  }

  /** The enum-name key of a display name is the constant's name. */
  lemma EnumKeyOfDisplayName(r: Rating)
    ensures EnumKey(DisplayName(r)) == EnumName(r)
  {
    var d := DisplayName(r);
    match r
    case Unrated => assert Underscored(ToUpper(d)) == "UNRATED";
    case VeryPoor => assert Underscored(ToUpper(d)) == "VERY_POOR";
    case Poor => assert Underscored(ToUpper(d)) == "POOR";
    case Average => assert Underscored(ToUpper(d)) == "AVERAGE";
    case Good => assert Underscored(ToUpper(d)) == "GOOD";
    case Excellent => assert Underscored(ToUpper(d)) == "EXCELLENT";
  }

  /** Reading back a display name, or a constant name, gives the rating. */
  lemma RatingRoundTrip(r: Rating)
    ensures ParseRating(DisplayName(r)) == Ok(r)
    ensures ParseRating(EnumName(r)) == Ok(r)
  {
    DisplayNameRoundTrip(r);
    EnumNameRoundTrip(r);
  }

  lemma DisplayNameRoundTrip(r: Rating)
    ensures ParseRating(DisplayName(r)) == Ok(r)
  {
    TrimOfTrimmed(DisplayName(r));
    EnumKeyOfDisplayName(r);
  }

  lemma EnumNameRoundTrip(r: Rating)
    ensures ParseRating(EnumName(r)) == Ok(r)
  {
    var e := EnumName(r);
    assert forall i :: 0 <= i < |e| ==> e[i] == '_' || 'A' <= e[i] <= 'Z';
    ConstantNameParses(e, r);
  }

  /** A constant name that `valueOf` knows parses to its constant. */
  lemma ConstantNameParses(e: string, r: Rating)
    requires e != [] && forall i :: 0 <= i < |e| ==> e[i] == '_' || 'A' <= e[i] <= 'Z'
    requires ValueOf(e) == Some(r)
    ensures ParseRating(e) == Ok(r)
  {
    EnumKeyOfConstantName(e);
    TrimOfTrimmed(e);
  }

  /** A constant name is its own enum-name key. */
  lemma EnumKeyOfConstantName(e: string)
    requires forall i :: 0 <= i < |e| ==> e[i] == '_' || 'A' <= e[i] <= 'Z'
    ensures EnumKey(e) == e
  {
    assert ToUpper(e) == e;
    assert Underscored(e) == e;
  }

  /** Both spellings of a two-word rating are accepted. */
  lemma VeryPoorSpellings()
    ensures ParseRating("very poor") == Ok(VeryPoor)
    ensures ParseRating("VERY_POOR") == Ok(VeryPoor)
  {
    TrimOfSolidEnds("very poor");
    VeryPoorKey();
    EnumNameRoundTrip(VeryPoor);
  }

  lemma VeryPoorKey()
    ensures EnumKey("very poor") == "VERY_POOR"
  {
    assert ToUpper("very poor") == "VERY POOR";
  }

  lemma TrimOfSolidEnds(s: string)
    requires |s| > 0 && !IsTrimmable(s[0]) && !IsTrimmable(s[|s| - 1])
    ensures Trim(s) == s
  {
    TrimOfTrimmed(s);
  }

  /**
   * The enum-name key of any text equal to a display name ignoring case is
   * that rating's constant name: on ASCII input the display-name fallback
   * never accepts a text the enum-name lookup rejected.
   */
  lemma FallbackNeverDecides(text: string)
    requires ParseRating(text).Ok?
    ensures ValueOf(EnumKey(Trim(text))) == Some(ParseRating(text).value)
  {
    var t := Trim(text);
    var r := ParseRating(text).value;
    if ValueOf(EnumKey(t)).None? {
      var d := DisplayName(r);
      assert EqualsIgnoreCase(d, t);
      EqualsIgnoreCaseIsLowerEquality(d, t);
      UpperDeterminedByLower(t, d);
      EnumKeyOfDisplayName(r);
      assert false;
    }
  }
}
