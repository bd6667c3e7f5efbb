/**
 * The tag listing: the catalogue sorted by name, ignoring case, and
 * rendered one numbered entry per line under a count.
 */
module TagListing {
  import opened Text
  import opened Tags
  import opened UniqueLists

  const NoTagsMessage := "There are no tags in the tag list."
  /** The platform line separator, taken as a line feed. */
  const LineSeparator := "\n"

  // ---------------------------------------------------------------------------
  // The case-insensitive order on names.

  /** Strict lexicographic order on character codes. */
  predicate LexLess(a: string, b: string)
  {
    if a == [] then b != []
    else if b == [] then false
    else if a[0] != b[0] then a[0] < b[0]
    else LexLess(a[1..], b[1..])
  }

  lemma {:induction false} LexLessIrreflexive(a: string)
    ensures !LexLess(a, a)
  {
    if a != [] {
      LexLessIrreflexive(a[1..]);
    }
  }

  lemma {:induction false} LexLessTransitive(a: string, b: string, c: string)
    requires LexLess(a, b) && LexLess(b, c)
    ensures LexLess(a, c)
  {
    if a != [] && b != [] && c != [] && a[0] == b[0] && b[0] == c[0] {
      LexLessTransitive(a[1..], b[1..], c[1..]);
    }
  }

  /** Any two different strings are ordered one way or the other. */
  lemma {:induction false} LexLessTotal(a: string, b: string)
    ensures a == b || LexLess(a, b) || LexLess(b, a)
  {
    if a != [] && b != [] && a[0] == b[0] {
      LexLessTotal(a[1..], b[1..]);
      if a[1..] == b[1..] {
        assert a == [a[0]] + a[1..] && b == [b[0]] + b[1..];
      }
    }
  }

  /**
   * `String.CASE_INSENSITIVE_ORDER` on tag names: on ASCII letters, comparing
   * the upper-cased and then the lower-cased characters is comparing the
   * lower-cased ones, so this is the order of the tags' identities.
   */
  predicate Before(a: Tag, b: Tag)
  {
    LexLess(TagKey(a), TagKey(b))
  }

  /** Non-decreasing in the case-insensitive order. */
  predicate Sorted(s: seq<Tag>)
  {
    forall i, j :: 0 <= i < j < |s| ==> !Before(s[j], s[i])
  }

  // ---------------------------------------------------------------------------
  // The sort: stable, as `List.sort` is.

  /** Inserts `x` after every element not after it. */
  function Insert(x: Tag, s: seq<Tag>): (r: seq<Tag>)
    ensures multiset(r) == multiset(s) + multiset{x}
    ensures |r| == |s| + 1
  {
    if s == [] then [x]
    else if Before(x, s[0]) then [x] + s
    else
      assert s == [s[0]] + s[1..];
      [s[0]] + Insert(x, s[1..])
  }

  lemma {:induction false} InsertSorted(x: Tag, s: seq<Tag>)
    requires Sorted(s)
    ensures Sorted(Insert(x, s))
  {
    if s == [] {
    } else if Before(x, s[0]) {
      forall j | 0 <= j < |s| ensures !Before(s[j], x) {
        LexLessIrreflexive(TagKey(s[0]));
        LexStep(TagKey(s[j]), TagKey(x), TagKey(s[0]));
      }
    } else {
      var rest := s[1..];
      assert Sorted(rest) by {
        forall i, j | 0 <= i < j < |rest| ensures !Before(rest[j], rest[i]) {
          assert rest[i] == s[i + 1] && rest[j] == s[j + 1];
        }
      }
      InsertSorted(x, rest);
      assert forall k :: 0 <= k < |rest| ==> !Before(rest[k], s[0]) by {
        assert forall k :: 0 <= k < |rest| ==> rest[k] == s[k + 1];
      }
      InsertLowerBound(x, rest, s[0]);
      var tail := Insert(x, rest);
      assert Insert(x, s) == [s[0]] + tail;
    }
  }

  /** Inserting an element not before `y` into elements not before `y` gives elements not before `y`. */
  lemma {:induction false} InsertLowerBound(x: Tag, s: seq<Tag>, y: Tag)
    requires !Before(x, y) && forall k :: 0 <= k < |s| ==> !Before(s[k], y)
    ensures forall k :: 0 <= k < |Insert(x, s)| ==> !Before(Insert(x, s)[k], y)
  {
    if s != [] && !Before(x, s[0]) {
      InsertLowerBound(x, s[1..], y);
      assert Insert(x, s) == [s[0]] + Insert(x, s[1..]);
    }
  }

  /** The contrapositive of transitivity: `a < b < c` fails when `a < c` does. */
  lemma {:induction false} LexStep(a: string, b: string, c: string)
    requires LexLess(b, c) && !LexLess(a, c)
    ensures !LexLess(a, b)
  {
    if a != [] && b != [] && c != [] && a[0] == b[0] && b[0] == c[0] {
      LexStep(a[1..], b[1..], c[1..]);
    }
  }

  /** `tags.sort(...)` by name, ignoring case. */
  function SortByName(s: seq<Tag>): (r: seq<Tag>)
    ensures multiset(r) == multiset(s)
    ensures |r| == |s|
  {
    if s == [] then []
    else
      assert s == s[..|s| - 1] + [s[|s| - 1]];
      Insert(s[|s| - 1], SortByName(s[..|s| - 1]))
  }

  /** The sorted catalogue is ordered by name, ignoring case, and holds exactly the catalogue's entries. */
  lemma {:induction false} SortByNameSorted(s: seq<Tag>)
    ensures Sorted(SortByName(s))
    ensures multiset(SortByName(s)) == multiset(s)
    decreases |s|
  {
    if s != [] {
      SortByNameSorted(s[..|s| - 1]);
      InsertSorted(s[|s| - 1], SortByName(s[..|s| - 1]));
    }
  }

  /**
   * In a catalogue whose identities are unique, the sorted listing is
   * strictly increasing: no two entries compare equal.
   */
  lemma SortedUniqueIsStrict(s: seq<Tag>)
    requires Unique(s, TagKey)
    ensures forall i, j :: 0 <= i < j < |SortByName(s)| ==> Before(SortByName(s)[i], SortByName(s)[j])
  {
    var r := SortByName(s);
    SortByNameSorted(s);
    forall i, j | 0 <= i < j < |r| ensures Before(r[i], r[j]) {
      DistinctKeys(s, r, i, j);
      LexLessTotal(TagKey(r[i]), TagKey(r[j]));
    }
  }

  /** Two positions of a permutation of a unique catalogue hold different identities. */
  lemma DistinctKeys(s: seq<Tag>, r: seq<Tag>, i: nat, j: nat)
    requires Unique(s, TagKey) && multiset(r) == multiset(s)
    requires i < j < |r|
    ensures TagKey(r[i]) != TagKey(r[j])
  {
    assert r[i] in multiset(s) && r[j] in multiset(s);
    var a :| 0 <= a < |s| && s[a] == r[i];
    var b :| 0 <= b < |s| && s[b] == r[j];
    if a == b {
      var rest := r[..j] + r[j + 1..];
      assert r == rest[..j] + [r[j]] + rest[j..] by {
        assert r[..j] == rest[..j] && r[j + 1..] == rest[j..];
      }
      assert multiset(r) == multiset(rest) + multiset{r[j]};
      assert rest[i] == r[i];
      assert r[i] in multiset(rest);
      assert multiset(s)[s[a]] >= 2;
      UniqueCount(s, a);
    }
  }

  /** In a unique catalogue, each entry occurs once. */
  lemma UniqueCount(s: seq<Tag>, a: nat)
    requires Unique(s, TagKey) && a < |s|
    ensures multiset(s)[s[a]] == 1
  {
    var left := s[..a];
    var right := s[a + 1..];
    assert s == left + [s[a]] + right;
    assert s[a] !in left by {
      forall k | 0 <= k < |left| ensures left[k] != s[a] {
        assert left[k] == s[k];
      }
    }
    assert s[a] !in right by {
      forall k | 0 <= k < |right| ensures right[k] != s[a] {
        assert right[k] == s[a + 1 + k];
      }
    }
  }

  // ---------------------------------------------------------------------------
  // The rendering.

  /** `formatTagEntry`: the one-based number, the name, and the fields in parentheses; an empty description is left out. */
  function Entry(index: nat, t: Tag): string
  {
    NatToDecimal(index + 1) + ". " + Details(t)
  }

  /** The name, then the category, the colour and any description in parentheses. */
  function Details(t: Tag): string
  {
    var parts := "Category: " + t.category + ", Colour: " + t.colour +
      (if t.description != "" then ", Description: " + t.description else "");
    t.tagName + " (" + parts + ")"
  }

  /**
   * An entry opens with its one-based number in decimal and a full stop;
   * a non-empty description is added after the category and colour, and
   * an empty one leaves the entry as if the tag had none.
   */
  lemma EntryShape(index: nat, t: Tag)
    ensures var d := NatToDecimal(index + 1); var e := Entry(index, t);
      |d| + 2 <= |e| && DigitsValue(e[..|d|]) == index + 1 && e[|d|..|d| + 2] == ". "
    ensures var bare := Entry(index, t.(description := ""));
      && bare[|bare| - 1] == ')'
      && (t.description != "" ==> Entry(index, t) == bare[..|bare| - 1] + ", Description: " + t.description + ")")
  {
    EntryNumber(index, t);
    EntryDescription(index, t);
  }

  lemma EntryNumber(index: nat, t: Tag)
    ensures var d := NatToDecimal(index + 1); var e := Entry(index, t);
      |d| + 2 <= |e| && DigitsValue(e[..|d|]) == index + 1 && e[|d|..|d| + 2] == ". "
  {
    NumberedPrefix(NatToDecimal(index + 1), Details(t));
    DecimalRoundTrip(index + 1);
  }

  lemma NumberedPrefix(d: string, rest: string)
    ensures var e := d + ". " + rest; |d| + 2 <= |e| && e[..|d|] == d && e[|d|..|d| + 2] == ". "
  {
  }

  lemma EntryDescription(index: nat, t: Tag)
    ensures var bare := Entry(index, t.(description := ""));
      && bare[|bare| - 1] == ')'
      && (t.description != "" ==> Entry(index, t) == bare[..|bare| - 1] + ", Description: " + t.description + ")")
  {
    var bare := Entry(index, t.(description := ""));
    var body := NatToDecimal(index + 1) + ". " + (t.tagName + " (" + ("Category: " + t.category + ", Colour: " + t.colour));
    assert bare == body + ")";
    assert bare[..|bare| - 1] == body;
  }

  /** The entries joined by the line separator. */
  function JoinLines(lines: seq<string>): string
  {
    if lines == [] then ""
    else if |lines| == 1 then lines[0]
    else lines[0] + LineSeparator + JoinLines(lines[1..])
  }

  /** One entry per sorted tag, numbered from one. */
  function Entries(sorted: seq<Tag>): (r: seq<string>)
    ensures |r| == |sorted|
    ensures forall i :: 0 <= i < |sorted| ==> r[i] == Entry(i, sorted[i])
  {
    seq(|sorted|, i requires 0 <= i < |sorted| => Entry(i, sorted[i]))
  }

  /** `execute`: the no-tags message, or the count followed by the numbered entries in name order. */
  function ListTags(ts: seq<Tag>): (r: string)
  {
    if ts == [] then NoTagsMessage
    else
      NatToDecimal(|ts|) + " tags in the tag list:" + LineSeparator + JoinLines(Entries(SortByName(ts)))
  }

  /**
   * The listing is the no-tags message exactly when the catalogue is empty;
   * otherwise it opens with the count of tags in decimal, and its entries
   * are numbered in name order and cover every entry of the catalogue once.
   */
  lemma ListTagsMeaning(ts: seq<Tag>)
    ensures ListTags(ts) == NoTagsMessage <==> ts == []
    ensures ts != [] ==>
      var header := NatToDecimal(|ts|) + " tags in the tag list:" + LineSeparator;
      && ListTags(ts)[..|header|] == header
      && DigitsValue(NatToDecimal(|ts|)) == |ts|
      && Sorted(SortByName(ts))
      && multiset(SortByName(ts)) == multiset(ts)
      && ListTags(ts)[|header|..] == JoinLines(Entries(SortByName(ts)))
  {
    if ts != [] {
      var d := NatToDecimal(|ts|);
      assert IsDigit(ListTags(ts)[0]) by {
        assert ListTags(ts)[0] == d[0];
      }
      assert !IsDigit(NoTagsMessage[0]);
      DecimalRoundTrip(|ts|);
      SortByNameSorted(ts);
    }
  }
}
