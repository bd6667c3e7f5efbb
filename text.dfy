/**
 * Character and string helpers with the meaning the Java library gives them,
 * restricted to the ASCII range (see README, "Left out").
 */
module Text {

  datatype Option<T> = None | Some(value: T)

  datatype Result<T, E> = Ok(value: T) | Err(error: E)

  // ---------------------------------------------------------------------
  // Character classes

  predicate IsDigit(c: char) { '0' <= c <= '9' }

  predicate IsUpper(c: char) { 'A' <= c <= 'Z' }

  predicate IsLower(c: char) { 'a' <= c <= 'z' }

  /** `\p{Alnum}` in a Java regular expression (ASCII letters and digits). */
  predicate IsAlnum(c: char) { IsUpper(c) || IsLower(c) || IsDigit(c) }

  /** `[0-9a-fA-F]` */
  predicate IsHexDigit(c: char) { IsDigit(c) || 'a' <= c <= 'f' || 'A' <= c <= 'F' }

  /** What `String.trim` strips from both ends: every code unit up to U+0020. */
  predicate IsTrimmable(c: char) { c <= ' ' }

  /** `\s` in a Java regular expression: `[ \t\n\x0B\f\r]`. */
  predicate IsRegexSpace(c: char)
  {
    c == ' ' || c == '\t' || c == '\n' || c == '\U{000B}' || c == '\U{000C}' || c == '\r'
  }

  /** `Character.isWhitespace` on the ASCII range. */
  predicate IsJavaWhitespace(c: char)
  {
    IsRegexSpace(c) || ('\U{001C}' <= c <= '\U{001F}')
  }

  // ---------------------------------------------------------------------
  // Case mapping

  function ToUpperChar(c: char): (r: char)
    ensures IsLower(c) ==> IsUpper(r)
    ensures !IsLower(c) ==> r == c
    ensures IsAlnum(r) <==> IsAlnum(c)
  {
    if IsLower(c) then (c as int - 32) as char else c
  }

  function ToLowerChar(c: char): (r: char)
    ensures IsUpper(c) ==> IsLower(r)
    ensures !IsUpper(c) ==> r == c
    ensures IsAlnum(r) <==> IsAlnum(c)
  {
    if IsUpper(c) then (c as int + 32) as char else c
  }

  /** `String.toUpperCase` */
  function ToUpper(s: string): (r: string)
    ensures |r| == |s|
    ensures forall i :: 0 <= i < |s| ==> r[i] == ToUpperChar(s[i])
  {
    seq(|s|, i requires 0 <= i < |s| => ToUpperChar(s[i]))
  }

  /** `String.toLowerCase` */
  function ToLower(s: string): (r: string)
    ensures |r| == |s|
    ensures forall i :: 0 <= i < |s| ==> r[i] == ToLowerChar(s[i])
  {
    seq(|s|, i requires 0 <= i < |s| => ToLowerChar(s[i]))
  }

  lemma LowerOfUpperChar(c: char)
    ensures ToLowerChar(ToUpperChar(c)) == ToLowerChar(c)
    ensures ToUpperChar(ToLowerChar(c)) == ToUpperChar(c)
  {
  }

  /**
   * `String.equalsIgnoreCase`: the same length, and at every position the two
   * characters are equal, or equal after upper-casing, or equal after
   * lower-casing the upper-cased forms.
   */
  predicate EqualsIgnoreCase(a: string, b: string)
  {
    |a| == |b| &&
    forall i :: 0 <= i < |a| ==>
      a[i] == b[i] || ToUpperChar(a[i]) == ToUpperChar(b[i]) ||
      ToLowerChar(ToUpperChar(a[i])) == ToLowerChar(ToUpperChar(b[i]))
  }

  /** Case-insensitive equality is equality of the lower-cased strings. */
  lemma EqualsIgnoreCaseIsLowerEquality(a: string, b: string)
    ensures EqualsIgnoreCase(a, b) <==> ToLower(a) == ToLower(b)
  {
    if EqualsIgnoreCase(a, b) {
      forall i | 0 <= i < |a|
        ensures ToLower(a)[i] == ToLower(b)[i]
      {
        LowerOfUpperChar(a[i]);
        LowerOfUpperChar(b[i]);
      }
    }
    if ToLower(a) == ToLower(b) {
      forall i | 0 <= i < |a|
        ensures ToLowerChar(ToUpperChar(a[i])) == ToLowerChar(ToUpperChar(b[i]))
      {
        assert ToLower(a)[i] == ToLower(b)[i];
        LowerOfUpperChar(a[i]);
        LowerOfUpperChar(b[i]);
      }
    }
  }

  /** Strings equal ignoring case have the same upper-cased form. */
  lemma UpperDeterminedByLower(a: string, b: string)
    requires ToLower(a) == ToLower(b)
    ensures ToUpper(a) == ToUpper(b)
  {
    forall i | 0 <= i < |a| ensures ToUpper(a)[i] == ToUpper(b)[i] {
      assert ToLower(a)[i] == ToLower(b)[i];
      LowerOfUpperChar(a[i]);
      LowerOfUpperChar(b[i]);
    }
  }

  // ---------------------------------------------------------------------
  // String.trim

  function TrimStart(s: string): (r: string)
    ensures |r| <= |s| && r == s[|s| - |r|..]
    ensures r != [] ==> !IsTrimmable(r[0])
    ensures forall i :: 0 <= i < |s| - |r| ==> IsTrimmable(s[i])
  {
    if s != [] && IsTrimmable(s[0]) then TrimStart(s[1..]) else s
  }

  function TrimEnd(s: string): (r: string)
    ensures |r| <= |s| && r == s[..|r|]
    ensures r != [] ==> !IsTrimmable(r[|r| - 1])
    ensures forall i :: |r| <= i < |s| ==> IsTrimmable(s[i])
  {
    if s != [] && IsTrimmable(s[|s| - 1]) then TrimEnd(s[..|s| - 1]) else s
  }

  /** `String.trim`: the longest infix with no trimmable character at either end. */
  function Trim(s: string): (r: string)
    ensures r != [] ==> !IsTrimmable(r[0]) && !IsTrimmable(r[|r| - 1])
    ensures |r| <= |s|
    ensures s != [] && !IsTrimmable(s[0]) ==> r == TrimEnd(s) && r == s[..|r|]
  {
    TrimEnd(TrimStart(s))
  }

  lemma {:induction false} TrimStartOfUntrimmed(s: string)
    requires s != [] ==> !IsTrimmable(s[0])
    ensures TrimStart(s) == s
  {
  }

  lemma {:induction false} TrimEndOfUntrimmed(s: string)
    requires s != [] ==> !IsTrimmable(s[|s| - 1])
    ensures TrimEnd(s) == s
  {
  }

  /** A string whose ends are not trimmable is its own trim; so trimming is idempotent. */
  lemma TrimOfTrimmed(s: string)
    requires s != [] ==> !IsTrimmable(s[0]) && !IsTrimmable(s[|s| - 1])
    ensures Trim(s) == s
  {
    TrimStartOfUntrimmed(s);
    TrimEndOfUntrimmed(s);
  }

  lemma TrimIdempotent(s: string)
    ensures Trim(Trim(s)) == Trim(s)
  {
    TrimOfTrimmed(Trim(s));
  }

  /** Trimming removes exactly the blanks padding a string whose own ends are not blank. */
  lemma TrimAround(before: string, s: string, after: string)
    requires s != [] && !IsTrimmable(s[0]) && !IsTrimmable(s[|s| - 1])
    requires forall k :: 0 <= k < |before| ==> IsTrimmable(before[k])
    requires forall k :: 0 <= k < |after| ==> IsTrimmable(after[k])
    ensures Trim(before + s + after) == s
  {
    assert (s + after)[0] == s[0];
    TrimStartPadded(before, s + after);
    assert before + s + after == before + (s + after);
    TrimEndPadded(s, after);
  }

  lemma {:induction false} TrimStartPadded(before: string, rest: string)
    requires rest != [] && !IsTrimmable(rest[0])
    requires forall k :: 0 <= k < |before| ==> IsTrimmable(before[k])
    ensures TrimStart(before + rest) == rest
  {
    if before == [] {
      assert before + rest == rest;
      TrimStartOfUntrimmed(rest);
    } else {
      assert (before + rest)[0] == before[0];
      assert (before + rest)[1..] == before[1..] + rest;
      TrimStartPadded(before[1..], rest);
    }
  }

  lemma {:induction false} TrimEndPadded(rest: string, after: string)
    requires rest != [] && !IsTrimmable(rest[|rest| - 1])
    requires forall k :: 0 <= k < |after| ==> IsTrimmable(after[k])
    ensures TrimEnd(rest + after) == rest
  {
    if after == [] {
      assert rest + after == rest;
      TrimEndOfUntrimmed(rest);
    } else {
      var whole := rest + after;
      assert whole[|whole| - 1] == after[|after| - 1];
      assert whole[..|whole| - 1] == rest + after[..|after| - 1];
      TrimEndPadded(rest, after[..|after| - 1]);
    }
  }


  /** Trimming a string that holds no trimmable character at all changes nothing. */
  lemma TrimOfSolid(s: string)
    requires forall i :: 0 <= i < |s| ==> !IsTrimmable(s[i])
    ensures Trim(s) == s
  {
    TrimOfTrimmed(s);
  }

  // ---------------------------------------------------------------------
  // Decimal numerals

  predicate AllDigits(s: string)
  {
    forall i :: 0 <= i < |s| ==> IsDigit(s[i])
  }

  function DigitValue(c: char): (r: nat)
    requires IsDigit(c)
    ensures r < 10
  {
    c as int - '0' as int
  }

  function DigitChar(d: nat): (c: char)
    requires d < 10
    ensures IsDigit(c) && DigitValue(c) == d
  {
    ('0' as int + d) as char
  }

  /** The value of a string of decimal digits, leading zeros allowed. */
  function DigitsValue(s: string): nat
    requires AllDigits(s)
  {
    if s == [] then 0 else DigitsValue(s[..|s| - 1]) * 10 + DigitValue(s[|s| - 1])
  }

  /** `Integer.toString` of a non-negative number. */
  function NatToDecimal(n: nat): (r: string)
    ensures r != [] && AllDigits(r)
    ensures |r| > 1 ==> r[0] != '0'
  {
    if n < 10 then [DigitChar(n)] else NatToDecimal(n / 10) + [DigitChar(n % 10)]
  }

  /** Parsing the printed form of a number gives the number back. */
  lemma {:induction false} DecimalRoundTrip(n: nat)
    ensures DigitsValue(NatToDecimal(n)) == n
  {
    if n >= 10 {
      var s := NatToDecimal(n);
      assert s[..|s| - 1] == NatToDecimal(n / 10);
      DecimalRoundTrip(n / 10);
    }
  }
}
