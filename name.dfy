/**
 * A candidate's name: validated against the name pattern, its blank runs
 * collapsed, and kept in two forms, a display form with each word
 * capitalised and a lower-cased canonical form that decides equality.
 */
module Names {
  import opened Text

  const NameConstraintsMessage := "Names should only contain letters (including accented characters), numbers, spaces, apostrophes, '@', or hyphens, may include 's/o' or 'd/o', and it should not be blank"

  datatype Name = Name(fullName: string, canonicalName: string)

  // ---------------------------------------------------------------------
  // The validation pattern
  //   (?i)[L][L @'-]*(?:\b[sd]/o\b[L @'-]*)*      where L is a letter or digit

  /** A character of the repeated class `[\p{L}\p{M}\p{N} @'\-]`. */
  predicate IsNameChar(c: char)
  {
    IsAlnum(c) || c == ' ' || c == '@' || c == '\'' || c == '-'
  }

  predicate IsRelationLetter(c: char) { c == 's' || c == 'S' || c == 'd' || c == 'D' }

  predicate IsLetterO(c: char) { c == 'o' || c == 'O' }

  /**
   * The slash of an `s/o` or `d/o` group at position i: a word boundary
   * before the relation letter (which cannot be the first character) and
   * a word boundary after the `o`.
   */
  predicate SlashAt(s: string, i: int)
  {
    2 <= i && i + 1 < |s| && s[i] == '/' &&
    IsRelationLetter(s[i - 1]) && !IsAlnum(s[i - 2]) &&
    IsLetterO(s[i + 1]) && (i + 2 == |s| || !IsAlnum(s[i + 2]))
  }

  /** Every position holds a name character or the slash of a relation group. */
  predicate Fine(s: string)
  {
    forall i :: 0 <= i < |s| ==> IsNameChar(s[i]) || SlashAt(s, i)
  }

  /** `isValidName`, on ASCII input. */
  predicate IsValidName(s: string)
  {
    |s| > 0 && IsAlnum(s[0]) && Fine(s)
  }

  lemma RejectedNames()
    ensures !IsValidName("") && !IsValidName(" ") && !IsValidName("^") && !IsValidName("peter*")
    ensures IsValidName("Raj s/o Kumar") && !IsValidName("s/o") && !IsValidName("Ras/o")
  {
    assert !IsNameChar("peter*"[5]) && !SlashAt("peter*", 5);
    assert !SlashAt("s/o", 1);
    assert !SlashAt("Ras/o", 3);
    var r := "Raj s/o Kumar";
    assert SlashAt(r, 5);
    assert forall i :: 0 <= i < |r| && i != 5 ==> IsNameChar(r[i]);
  }

  // ---------------------------------------------------------------------
  // collapseWhitespace: trim, then replace every run of `\s` by one blank

  /** A position `replaceAll("\\s+", " ")` keeps: all but the last of a run of spaces are dropped. */
  predicate Kept(s: string, i: nat)
    requires i < |s|
  {
    !(IsRegexSpace(s[i]) && i + 1 < |s| && IsRegexSpace(s[i + 1]))
  }

  function Blanked(c: char): (r: char)
    ensures IsRegexSpace(r) <==> IsRegexSpace(c)
    ensures IsRegexSpace(c) ==> r == ' '
    ensures !IsRegexSpace(c) ==> r == c
  {
    if IsRegexSpace(c) then ' ' else c
  }

  /** The kept positions from i onwards, each space written as one blank. */
  function CollapseFrom(s: string, i: nat): string
    requires i <= |s|
    decreases |s| - i
  {
    if i == |s| then []
    else if Kept(s, i) then [Blanked(s[i])] + CollapseFrom(s, i + 1)
    else CollapseFrom(s, i + 1)
  }

  function CollapseRuns(s: string): string
  {
    CollapseFrom(s, 0)
  }

  /** `collapseWhitespace` */
  function Collapse(v: string): string
  {
    CollapseRuns(Trim(v))
  }

  /** `canonicalize` */
  function Canonicalize(v: string): string
  {
    ToLower(Collapse(v))
  }

  /** No space at either end, every space a single blank, no two spaces in a row. */
  predicate Collapsed(s: string)
  {
    (s != [] ==> !IsTrimmable(s[0]) && !IsTrimmable(s[|s| - 1])) &&
    (forall i :: 0 <= i < |s| && IsRegexSpace(s[i]) ==> s[i] == ' ') &&
    (forall i :: 0 <= i < |s| - 1 ==> !(IsRegexSpace(s[i]) && IsRegexSpace(s[i + 1])))
  }

  /** The shape of the collapsed suffix: blanks only, no two in a row, head and last character known. */
  lemma {:induction false} CollapseFromShape(s: string, i: nat)
    requires i <= |s|
    ensures var t := CollapseFrom(s, i);
      |t| <= |s| - i &&
      (forall k :: 0 <= k < |t| && IsRegexSpace(t[k]) ==> t[k] == ' ') &&
      (forall k :: 0 <= k < |t| - 1 ==> !(IsRegexSpace(t[k]) && IsRegexSpace(t[k + 1]))) &&
      (i < |s| && !IsRegexSpace(s[i]) ==> t != [] && t[0] == s[i]) &&
      (i < |s| && IsRegexSpace(s[i]) ==> t != [] && t[0] == ' ') &&
      (i < |s| && !IsRegexSpace(s[|s| - 1]) ==> t != [] && t[|t| - 1] == s[|s| - 1])
    decreases |s| - i
  {
    if i < |s| {
      CollapseFromShape(s, i + 1);
    }
  }

  /** The output of `collapseWhitespace` has no space at its ends and no run of spaces. */
  lemma CollapseIsCollapsed(v: string)
    ensures Collapsed(Collapse(v))
  {
    RunsCollapsed(Trim(v));
  }

  lemma RunsCollapsed(p: string)
    requires p != [] ==> !IsTrimmable(p[0]) && !IsTrimmable(p[|p| - 1])
    ensures Collapsed(CollapseRuns(p))
  {
    CollapseFromShape(p, 0);
  }

  /** A collapsed string passes through the run replacement unchanged. */
  lemma {:induction false} CollapseFromOfCollapsed(s: string, i: nat)
    requires i <= |s|
    requires forall k :: 0 <= k < |s| && IsRegexSpace(s[k]) ==> s[k] == ' '
    requires forall k :: 0 <= k < |s| - 1 ==> !(IsRegexSpace(s[k]) && IsRegexSpace(s[k + 1]))
    ensures CollapseFrom(s, i) == s[i..]
    decreases |s| - i
  {
    if i < |s| {
      CollapseFromOfCollapsed(s, i + 1);
      assert s[i..] == [s[i]] + s[i + 1..];
    }
  }

  lemma CollapseOfCollapsed(s: string)
    requires Collapsed(s)
    ensures Collapse(s) == s
  {
    assert Trim(s) == s by { TrimOfTrimmed(s); }
    calc {
      Collapse(s);
      CollapseFrom(s, 0);
      { CollapseFromOfCollapsed(s, 0); }
      s[0..];
      s;
    }
  }

  /** A stretch without spaces is copied as it is. */
  lemma {:induction false} CollapseFromSolid(s: string, i: nat, j: nat)
    requires i <= j <= |s|
    requires forall k :: i <= k < j ==> !IsRegexSpace(s[k])
    ensures CollapseFrom(s, i) == s[i..j] + CollapseFrom(s, j)
    decreases j - i
  {
    if i < j {
      CollapseFromSolid(s, i + 1, j);
      assert Kept(s, i) && Blanked(s[i]) == s[i];
      assert CollapseFrom(s, i) == [s[i]] + CollapseFrom(s, i + 1);
      assert s[i..j] == [s[i]] + s[i + 1..j];
    }
  }

  /** A run of spaces followed by a non-space becomes one blank. */
  lemma {:induction false} CollapseFromRun(s: string, i: nat, j: nat)
    requires i < j < |s|
    requires forall k :: i <= k < j ==> IsRegexSpace(s[k])
    requires !IsRegexSpace(s[j])
    ensures CollapseFrom(s, i) == [' '] + CollapseFrom(s, j)
    decreases j - i
  {
    if i + 1 < j {
      CollapseFromRun(s, i + 1, j);
    }
  }

  /** Collapsing whitespace is idempotent. */
  lemma CollapseIdempotent(v: string)
    ensures Collapse(Collapse(v)) == Collapse(v)
  {
    CollapseIsCollapsed(v);
    CollapseOfCollapsed(Collapse(v));
  }

  // ---------------------------------------------------------------------
  // Collapsing keeps a valid name valid

  /** The collapsed suffix from i sits at the end of the whole collapsed string. */
  lemma {:induction false} CollapseSuffix(s: string, i: nat)
    requires i <= |s|
    ensures |CollapseFrom(s, i)| <= |CollapseFrom(s, 0)|
    ensures CollapseFrom(s, 0)[|CollapseFrom(s, 0)| - |CollapseFrom(s, i)|..] == CollapseFrom(s, i)
  {
    if i > 0 {
      CollapseSuffix(s, i - 1);
    }
  }

  /** In a string with only blanks as spaces, the character at i is the one at its offset in the output. */
  lemma KeptAt(s: string, i: nat)
    requires i < |s| && Kept(s, i)
    ensures var t := CollapseFrom(s, 0); var o := |t| - |CollapseFrom(s, i)|;
      0 <= o < |t| && t[o] == Blanked(s[i]) && |CollapseFrom(s, i + 1)| == |CollapseFrom(s, i)| - 1
  {
    CollapseSuffix(s, i);
  }

  /** Removing trailing blanks from a fine string keeps it fine. */
  lemma FinePrefix(s: string, m: nat)
    requires Fine(s) && m <= |s|
    requires forall i :: m <= i < |s| ==> IsTrimmable(s[i])
    ensures Fine(s[..m])
  {
    var p := s[..m];
    forall i | 0 <= i < |p|
      ensures IsNameChar(p[i]) || SlashAt(p, i)
    {
      if !IsNameChar(s[i]) {
        assert SlashAt(s, i);
        assert i + 1 < m by { assert !IsTrimmable(s[i + 1]); }
      }
    }
  }

  /** Every position of the collapsed output from offset |t| - |CollapseFrom(s, j)| on is fine. */
  lemma {:induction false} CollapseFromFine(s: string, j: nat)
    requires Fine(s) && j <= |s|
    ensures |CollapseFrom(s, j)| <= |CollapseFrom(s, 0)|
    ensures var t := CollapseFrom(s, 0);
      forall k :: |t| - |CollapseFrom(s, j)| <= k < |t| ==> IsNameChar(t[k]) || SlashAt(t, k)
    decreases |s| - j
  {
    var t := CollapseFrom(s, 0);
    CollapseSuffix(s, j);
    if j < |s| {
      CollapseFromFine(s, j + 1);
      if Kept(s, j) {
        KeptAt(s, j);
        var o := |t| - |CollapseFrom(s, j)|;
        if !IsNameChar(s[j]) {
          assert SlashAt(s, j);
          SlashSurvives(s, j);
        }
        assert IsNameChar(t[o]) || SlashAt(t, o);
      }
    }
  }

  /** The neighbourhood of a relation-group slash survives the run replacement. */
  lemma SlashSurvives(s: string, j: nat)
    requires j < |s| && SlashAt(s, j) && Kept(s, j)
    ensures var t := CollapseFrom(s, 0); SlashAt(t, |t| - |CollapseFrom(s, j)|)
  {
    var t := CollapseFrom(s, 0);
    var o := |t| - |CollapseFrom(s, j)|;
    KeptAt(s, j);
    KeptAt(s, j - 1);
    KeptAt(s, j - 2);
    KeptAt(s, j + 1);
    assert t[o - 1] == s[j - 1];
    assert t[o - 2] == Blanked(s[j - 2]);
    assert t[o + 1] == s[j + 1];
    SlashTail(s, j);
  }

  /** What follows the `o` of a relation group in the output is no letter or digit. */
  lemma SlashTail(s: string, j: nat)
    requires j + 1 < |s| && (j + 2 == |s| || !IsAlnum(s[j + 2]))
    ensures var t := CollapseFrom(s, 0); var o := |t| - |CollapseFrom(s, j + 2)|;
      0 <= o <= |t| && (o == |t| || !IsAlnum(t[o]))
    ensures j + 2 < |s| ==> CollapseFrom(s, j + 2) != []
  {
    if j + 2 < |s| {
      HeadOfCollapseFrom(s, j + 2);
      CollapseSuffix(s, j + 2);
      var t := CollapseFrom(s, 0);
      var o := |t| - |CollapseFrom(s, j + 2)|;
      assert t[o] == CollapseFrom(s, j + 2)[0];
    } else {
      CollapseSuffix(s, j + 2);
    }
  }

  /** The output from i opens with the character at i, a space written as a blank. */
  lemma {:induction false} HeadOfCollapseFrom(s: string, i: nat)
    requires i < |s|
    ensures CollapseFrom(s, i) != [] && CollapseFrom(s, i)[0] == Blanked(s[i])
    decreases |s| - i
  {
    if !Kept(s, i) {
      HeadOfCollapseFrom(s, i + 1);
    }
  }

  /** Collapsing whitespace turns a valid name into a valid name. */
  lemma CollapseKeepsValid(raw: string)
    requires IsValidName(raw)
    ensures IsValidName(Collapse(raw))
  {
    TrimmedValid(raw);
    RunsKeepValid(Trim(raw));
  }

  /** Replacing the runs of a valid name gives a valid name. */
  lemma RunsKeepValid(p: string)
    requires p != [] && IsAlnum(p[0]) && Fine(p)
    ensures IsValidName(CollapseRuns(p))
  {
    CollapseFromFine(p, 0);
    assert Kept(p, 0) && Blanked(p[0]) == p[0];
  }

  /** The trimmed form of a valid name is non-empty, fine, and starts alphanumeric. */
  lemma TrimmedValid(raw: string)
    requires IsValidName(raw)
    ensures Trim(raw) != [] && Fine(Trim(raw)) && IsAlnum(Trim(raw)[0])
  {
    var p := Trim(raw);
    assert p == TrimEnd(raw) && p == raw[..|p|];
    assert p != [] by { assert !IsTrimmable(raw[0]); }
    assert forall i :: |p| <= i < |raw| ==> IsTrimmable(raw[i]);
    FinePrefix(raw, |p|);
  }

  // ---------------------------------------------------------------------
  // formatDisplayName

  /** Characters after which `formatDisplayName` capitalises the next letter. */
  predicate CapitalizesNext(c: char)
  {
    IsJavaWhitespace(c) || c == '\'' || c == '-' || c == '/'
  }

  /** The character emitted for position i of the lower-cased input. */
  function DisplayChar(lower: string, i: nat): char
    requires i < |lower|
  {
    if IsJavaWhitespace(lower[i]) then ' '
    else if lower[i] == '\'' || lower[i] == '-' || lower[i] == '/' then lower[i]
    else if i == 0 || CapitalizesNext(lower[i - 1]) then ToUpperChar(lower[i])
    else lower[i]
  }

  /**
   * The display form: lower-case everything, then title-case the first
   * character and every character that follows whitespace, an apostrophe,
   * a hyphen or a slash; whitespace becomes a blank.
   */
  function DisplayForm(v: string): (r: string)
    ensures |r| == |v|
  {
    var lower := ToLower(v);
    seq(|v|, i requires 0 <= i < |v| => DisplayChar(lower, i))
  }

  /** The loop of `formatDisplayName`, with its `capitalizeNext` flag. */
  method FormatDisplayName(value: string) returns (r: string)
    ensures r == DisplayForm(value)
  {
    var lowerCased := ToLower(value);
    var builder := [];
    var capitalizeNext := true;
    var i := 0;
    while i < |lowerCased|
      invariant 0 <= i <= |lowerCased|
      invariant builder == DisplayForm(value)[..i]
      invariant capitalizeNext == (i == 0 || CapitalizesNext(lowerCased[i - 1]))
    {
      var current := lowerCased[i];
      if IsJavaWhitespace(current) {
        builder := builder + [' '];
        capitalizeNext := true;
      } else if current == '\'' || current == '-' || current == '/' {
        builder := builder + [current];
        capitalizeNext := true;
      } else if capitalizeNext {
        builder := builder + [ToUpperChar(current)];
        capitalizeNext := false;
      } else {
        builder := builder + [current];
      }
      i := i + 1;
    }
    r := builder;
  }

  /** Word starts are upper-case and every other letter is lower-case. */
  lemma DisplayFormCapitalises(v: string, i: nat)
    requires i < |v| && IsAlnum(v[i])
    ensures i == 0 || CapitalizesNext(ToLowerChar(v[i - 1])) ==> !IsLower(DisplayForm(v)[i])
    ensures !(i == 0 || CapitalizesNext(ToLowerChar(v[i - 1]))) ==> !IsUpper(DisplayForm(v)[i])
    ensures ToLowerChar(DisplayForm(v)[i]) == ToLowerChar(v[i])
  {
    LowerOfUpperChar(v[i]);
  }

  /** The display form depends only on the lower-cased input. */
  lemma DisplayFormIgnoresCase(x: string, y: string)
    requires ToLower(x) == ToLower(y)
    ensures DisplayForm(x) == DisplayForm(y)
  {
  }

  /** Apart from whitespace becoming blanks, the display form only changes letter case. */
  lemma DisplayFormLower(v: string)
    ensures forall i :: 0 <= i < |v| ==>
      ToLower(DisplayForm(v))[i] == (if IsJavaWhitespace(ToLowerChar(v[i])) then ' ' else ToLowerChar(v[i]))
  {
    forall i | 0 <= i < |v|
      ensures ToLower(DisplayForm(v))[i] == (if IsJavaWhitespace(ToLowerChar(v[i])) then ' ' else ToLowerChar(v[i]))
    {
      LowerOfUpperChar(ToLowerChar(v[i]));
    }
  }

  // ---------------------------------------------------------------------
  // The constructor

  /** `new Name(raw)`: reject invalid input, otherwise collapse and keep both forms. */
  function NameOf(raw: string): (r: Result<Name, string>)
    ensures r.Err? <==> !IsValidName(raw)
    ensures r.Err? ==> r.error == NameConstraintsMessage
    ensures r.Ok? ==> |r.value.fullName| == |Collapse(raw)| && Collapsed(r.value.canonicalName)
  {
    if !IsValidName(raw) then Err(NameConstraintsMessage)
    else
      var c := Collapse(raw);
      CollapseIsCollapsed(raw);
      CollapseIdempotent(raw);
      CanonicalOfCollapsedIsCollapsed(c);
      Ok(Name(DisplayForm(c), Canonicalize(c)))
  }

  lemma CanonicalOfCollapsedIsCollapsed(c: string)
    requires Collapsed(c)
    ensures Collapsed(Canonicalize(c))
  {
    CollapseOfCollapsed(c);
    LowerKeepsCollapsed(c);
  }

  lemma LowerKeepsCollapsed(c: string)
    requires Collapsed(c)
    ensures Collapsed(ToLower(c))
  {
    var l := ToLower(c);
    if c != [] {
      LowerKeepsSpaces(c[0]);
      LowerKeepsSpaces(c[|c| - 1]);
    }
    assert forall i :: 0 <= i < |l| && IsRegexSpace(l[i]) ==> l[i] == ' ' by {
      forall i | 0 <= i < |l| && IsRegexSpace(l[i]) ensures l[i] == ' ' {
        LowerKeepsSpaces(c[i]);
      }
    }
    forall i | 0 <= i < |l| - 1 ensures !(IsRegexSpace(l[i]) && IsRegexSpace(l[i + 1])) {
      LowerKeepsSpaces(c[i]);
      LowerKeepsSpaces(c[i + 1]);
    }
  }

  /** Lower-casing leaves spaces and control characters as they are. */
  lemma LowerKeepsSpaces(c: char)
    ensures IsRegexSpace(ToLowerChar(c)) <==> IsRegexSpace(c)
    ensures IsTrimmable(ToLowerChar(c)) <==> IsTrimmable(c)
    ensures IsRegexSpace(c) ==> ToLowerChar(c) == c
  {
  }

  /** The executable constructor, running the display-form loop. */
  method NewName(raw: string) returns (r: Result<Name, string>)
    ensures r == NameOf(raw)
    ensures r.Ok? ==> r.value.fullName == DisplayForm(Collapse(raw))
  {
    if !IsValidName(raw) {
      return Err(NameConstraintsMessage);
    }
    var collapsed := Collapse(raw);
    var fullName := FormatDisplayName(collapsed);
    r := Ok(Name(fullName, Canonicalize(collapsed)));
  }

  /** `equals`: the canonical forms agree. */
  predicate NameEquals(a: Name, b: Name)
  {
    a.canonicalName == b.canonicalName
  }

  /** Two names are equal exactly when their trimmed, collapsed, lower-cased inputs agree. */
  lemma NameEqualsIffCanonical(x: string, y: string)
    requires NameOf(x).Ok? && NameOf(y).Ok?
    ensures NameEquals(NameOf(x).value, NameOf(y).value) <==> ToLower(Collapse(x)) == ToLower(Collapse(y))
  {
    CollapseIdempotent(x);
    CollapseIdempotent(y);
  }

  lemma SpacingAndCaseDoNotMatter()
    ensures NameOf("Valid    Name").Ok? && NameOf("valid name").Ok?
    ensures NameEquals(NameOf("Valid    Name").value, NameOf("valid name").value)
  {
    var a := "Valid    Name";
    var b := "valid name";
    ValidExamples();
    CollapseExamples();
    LowerExample();
    NameEqualsIffCanonical(a, b);
  }

  lemma LowerExample()
    ensures ToLower("Valid Name") == ToLower("valid name")
  {
    var a := "Valid Name";
    var b := "valid name";
    assert ToLowerChar(a[0]) == ToLowerChar(b[0]);
    assert ToLowerChar(a[6]) == ToLowerChar(b[6]);
    assert forall i :: 0 <= i < |a| && i != 0 && i != 6 ==> a[i] == b[i];
  }

  lemma ValidExamples()
    ensures IsValidName("Valid    Name") && IsValidName("valid name")
  {
    var a := "Valid    Name";
    var b := "valid name";
    assert forall i :: 0 <= i < |a| ==> IsNameChar(a[i]);
    assert forall i :: 0 <= i < |b| ==> IsNameChar(b[i]);
  }

  lemma CollapseExamples()
    ensures Collapse("Valid    Name") == "Valid Name"
    ensures Collapse("valid name") == "valid name"
  {
    CollapseSpacedExample();
    CollapseSingleExample();
  }

  lemma CollapseSpacedExample()
    ensures Collapse("Valid    Name") == "Valid Name"
  {
    var a := "Valid    Name";
    TrimOfSolidEnds(a);
    CollapseFromSolid(a, 0, 5);
    CollapseFromRun(a, 5, 9);
    CollapseFromSolid(a, 9, 13);
    assert a[0..5] + [' '] + a[9..13] == "Valid Name";
  }

  lemma CollapseSingleExample()
    ensures Collapse("valid name") == "valid name"
  {
    var b := "valid name";
    TrimOfSolidEnds(b);
    CollapseFromSolid(b, 0, 5);
    CollapseFromRun(b, 5, 6);
    CollapseFromSolid(b, 6, 10);
    assert b[0..5] + [' '] + b[6..10] == b;
  }

  lemma TrimOfSolidEnds(s: string)
    requires |s| > 0 && !IsTrimmable(s[0]) && !IsTrimmable(s[|s| - 1])
    ensures Trim(s) == s
  {
    TrimOfTrimmed(s);
  }

  // ---------------------------------------------------------------------
  // Idempotence

  /** The validity pattern is case-insensitive. */
  lemma ValidIgnoresCase(x: string, y: string)
    requires |x| == |y|
    requires forall i :: 0 <= i < |x| ==> ToLowerChar(x[i]) == ToLowerChar(y[i])
    ensures IsValidName(x) ==> IsValidName(y)
  {
    if IsValidName(x) {
      forall i | 0 <= i < |y| ensures IsNameChar(y[i]) || SlashAt(y, i) {
        assert IsNameChar(x[i]) || SlashAt(x, i);
        if SlashAt(x, i) {
          assert ToLowerChar(x[i - 1]) == ToLowerChar(y[i - 1]);
          assert ToLowerChar(x[i - 2]) == ToLowerChar(y[i - 2]);
          assert ToLowerChar(x[i + 1]) == ToLowerChar(y[i + 1]);
          if i + 2 < |x| {
            assert ToLowerChar(x[i + 2]) == ToLowerChar(y[i + 2]);
          }
        }
      }
      assert ToLowerChar(x[0]) == ToLowerChar(y[0]);
    }
  }

  /** A valid collapsed name: its display form is valid, collapsed, and lower-cases to the same string. */
  lemma DisplayOfValidCollapsed(c: string)
    requires IsValidName(c) && Collapsed(c)
    ensures ToLower(DisplayForm(c)) == ToLower(c)
    ensures IsValidName(DisplayForm(c)) && Collapsed(DisplayForm(c))
  {
    var f := DisplayForm(c);
    DisplayFormLower(c);
    forall i | 0 <= i < |c| ensures ToLowerChar(f[i]) == ToLowerChar(c[i]) {
      assert IsNameChar(c[i]) || SlashAt(c, i);
      assert ToLower(f)[i] == ToLowerChar(f[i]);
    }
    assert ToLower(f) == ToLower(c);
    ValidIgnoresCase(c, f);
    forall i | 0 <= i < |f| ensures IsRegexSpace(f[i]) <==> c[i] == ' ' {
      assert IsNameChar(c[i]) || SlashAt(c, i);
      LowerOfUpperChar(ToLowerChar(c[i]));
    }
    assert !IsTrimmable(f[0]);
    assert !IsTrimmable(f[|f| - 1]) by {
      assert IsNameChar(c[|c| - 1]) || SlashAt(c, |c| - 1);
    }
  }

  /** Building a Name from another Name's display form gives the same Name. */
  lemma {:induction false} NameIdempotent(raw: string)
    requires NameOf(raw).Ok?
    ensures NameOf(NameOf(raw).value.fullName) == NameOf(raw)
  {
    var c := Collapse(raw);
    CollapseKeepsValid(raw);
    CollapseIsCollapsed(raw);
    var f := DisplayForm(c);
    DisplayOfValidCollapsed(c);
    CollapseOfCollapsed(f);
    CollapseOfCollapsed(c);
    DisplayFormIgnoresCase(f, c);
  }
}
