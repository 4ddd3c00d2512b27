/**
 * `sanitize_filename` and `extract_year_or_fallback` from
 * `src/rbg_live_dl/__main__.py`: how scraped text becomes a name that is
 * safe to use as one component of a path.
 */
module Naming {
  import opened Text
  import opened Results

  /** The character class `sanitize_filename` replaces: backslash, slash,
      asterisk, question mark, colon, double quote, angle brackets and bar. */
  const ReservedChars: set<char> := {'\\', '/', '*', '?', ':', '"', '<', '>', '|'}

  predicate IsReserved(c: char) {
    c in ReservedChars
  }

  predicate NoReserved(s: string) {
    forall i | 0 <= i < |s| :: !IsReserved(s[i])
  }

  /** What `sanitize_filename` produces: no reserved character, every
      whitespace character a single space, nothing at either end. */
  predicate IsSafeName(s: string) {
    NoReserved(s) && Normalized(s)
  }

  /** The first `re.sub` of `sanitize_filename`: each reserved character
      becomes `_`; every other character stays where it is. */
  function ReplaceReserved(s: string): (r: string)
    ensures |r| == |s|
    ensures forall i | 0 <= i < |s| :: IsReserved(s[i]) ==> r[i] == '_'
    ensures forall i | 0 <= i < |s| :: !IsReserved(s[i]) ==> r[i] == s[i]
  {
    if |s| == 0 then []
    else [if IsReserved(s[0]) then '_' else s[0]] + ReplaceReserved(s[1..])
  }

  /** The replacement leaves no reserved character and neither creates nor
      destroys whitespace. */
  lemma {:induction false} ReplaceReservedClasses(s: string)
    ensures NoReserved(ReplaceReserved(s))
    ensures forall i | 0 <= i < |s| ::
      IsWhitespace(ReplaceReserved(s)[i]) <==> IsWhitespace(s[i])
  {
    var r := ReplaceReserved(s);
    forall i | 0 <= i < |s|
      ensures !IsReserved(r[i])
      ensures IsWhitespace(r[i]) <==> IsWhitespace(s[i])
    {
      if IsReserved(s[i]) {
        ReservedIsNotWhitespace(s[i]);
      }
    }
  }

  /** The reserved characters and their replacement `_` are not whitespace. */
  lemma {:induction false} ReservedIsNotWhitespace(c: char)
    requires IsReserved(c)
    ensures !IsWhitespace(c) && !IsWhitespace('_') && !IsReserved('_')
  {
  }

  /** A string without reserved characters is left alone. */
  lemma {:induction false} ReplaceReservedIdentity(s: string)
    requires NoReserved(s)
    ensures ReplaceReserved(s) == s
  {
    assert forall i | 0 <= i < |s| :: ReplaceReserved(s)[i] == s[i];
  }

  /** The replacement works character by character, so it distributes over
      concatenation. */
  lemma {:induction false} ReplaceReservedConcat(a: string, b: string)
    ensures ReplaceReserved(a + b) == ReplaceReserved(a) + ReplaceReserved(b)
  {
    var r := ReplaceReserved(a + b);
    var q := ReplaceReserved(a) + ReplaceReserved(b);
    forall i | 0 <= i < |r| ensures r[i] == q[i] {
      if i < |a| {
        assert (a + b)[i] == a[i];
      } else {
        assert (a + b)[i] == b[i - |a|];
      }
    }
  }

  /** The replacement of a tail is the tail of the replacement. */
  lemma {:induction false} ReplaceReservedTail(s: string)
    requires |s| > 0
    ensures ReplaceReserved(s[1..]) == ReplaceReserved(s)[1..]
  {
    var r := ReplaceReserved(s);
    assert forall i | 0 <= i < |s| - 1 :: ReplaceReserved(s[1..])[i] == r[i + 1];
  }

  /** The replacement of a front is the front of the replacement. */
  lemma {:induction false} ReplaceReservedFront(s: string)
    requires |s| > 0
    ensures ReplaceReserved(s[..|s| - 1]) == ReplaceReserved(s)[..|s| - 1]
  {
    var r := ReplaceReserved(s);
    assert forall i | 0 <= i < |s| - 1 :: ReplaceReserved(s[..|s| - 1])[i] == r[i];
  }

  /** Replacing reserved characters commutes with `lstrip()`. */
  lemma {:induction false} ReplaceReservedStripLeading(s: string)
    ensures ReplaceReserved(StripLeading(s, Whitespace))
         == StripLeading(ReplaceReserved(s), Whitespace)
    decreases |s|
  {
    var r := ReplaceReserved(s);
    ReplaceReservedClasses(s);
    if |s| > 0 {
      if IsWhitespace(s[0]) {
        assert Strips(Whitespace, r[0]);
        ReplaceReservedTail(s);
        ReplaceReservedStripLeading(s[1..]);
      } else {
        assert !Strips(Whitespace, r[0]);
      }
    }
  }

  /** Replacing reserved characters commutes with `rstrip()`. */
  lemma {:induction false} ReplaceReservedStripTrailing(s: string)
    ensures ReplaceReserved(StripTrailing(s, Whitespace))
         == StripTrailing(ReplaceReserved(s), Whitespace)
    decreases |s|
  {
    var r := ReplaceReserved(s);
    ReplaceReservedClasses(s);
    if |s| > 0 {
      if IsWhitespace(s[|s| - 1]) {
        assert Strips(Whitespace, r[|r| - 1]);
        ReplaceReservedFront(s);
        ReplaceReservedStripTrailing(s[..|s| - 1]);
      } else {
        assert !Strips(Whitespace, r[|r| - 1]);
      }
    }
  }

  /** Replacing reserved characters commutes with `strip()`. */
  lemma {:induction false} ReplaceReservedStrip(s: string)
    ensures ReplaceReserved(Strip(s)) == Strip(ReplaceReserved(s))
  {
    var left := StripLeading(s, Whitespace);
    ReplaceReservedStripLeading(s);
    ReplaceReservedStripTrailing(left);
  }

  /** Replacing reserved characters commutes with collapsing whitespace runs. */
  lemma {:induction false} ReplaceReservedCollapse(s: string)
    ensures ReplaceReserved(CollapseWhitespace(s)) == CollapseWhitespace(ReplaceReserved(s))
    decreases |s|
  {
    if |s| > 0 {
      var r := ReplaceReserved(s);
      ReplaceReservedClasses(s);
      if IsWhitespace(s[0]) {
        var rest := StripLeading(s, Whitespace);
        assert Strips(Whitespace, s[0]);
        ReplaceReservedCollapse(rest);
        ReplaceReservedConcat([' '], CollapseWhitespace(rest));
        ReplaceReservedStripLeading(s);
        assert Strips(Whitespace, r[0]);
      } else {
        ReplaceReservedCollapse(s[1..]);
        ReplaceReservedConcat([s[0]], CollapseWhitespace(s[1..]));
        ReplaceReservedTail(s);
        assert !IsWhitespace(r[0]);
      }
    }
  }

  /** Replacing reserved characters commutes with whitespace normalisation. */
  lemma {:induction false} ReplaceReservedNormalize(s: string)
    ensures ReplaceReserved(Normalize(s)) == Normalize(ReplaceReserved(s))
  {
    ReplaceReservedCollapse(s);
    ReplaceReservedStrip(CollapseWhitespace(s));
  }

  /** `sanitize_filename(name)`. */
  function Sanitize(s: string): (r: string)
    ensures IsSafeName(r)
    ensures |r| <= |s|
    ensures |r| == 0 <==> AllWhitespace(s)
  {
    var c := ReplaceReserved(s);
    ReplaceReservedNormalize(s);
    ReplaceReservedClasses(Normalize(s));
    ReplaceReservedClasses(s);
    Normalize(c)
  }

  /** Nothing but the reserved characters and the whitespace changes: the
      sanitized name splits into exactly the words of the input with reserved
      characters replaced. Together with `IsSafeName` this fixes the result. */
  lemma {:induction false} SanitizeWords(s: string)
    ensures Words(Sanitize(s)) == Words(ReplaceReserved(s))
  {
    WordsSpec(ReplaceReserved(s));
    WordsOfJoin(Words(ReplaceReserved(s)));
  }

  /** Sanitizing is a no-op exactly on safe names. */
  lemma {:induction false} SanitizeFixpoint(t: string)
    ensures Sanitize(t) == t <==> IsSafeName(t)
  {
    if IsSafeName(t) {
      ReplaceReservedIdentity(t);
      NormalizeFixpoint(t);
    }
  }

  /** `sanitize_filename` is idempotent. */
  lemma {:induction false} SanitizeIdempotent(s: string)
    ensures Sanitize(Sanitize(s)) == Sanitize(s)
  {
    SanitizeFixpoint(Sanitize(s));
  }

  /** Normalising whitespace before sanitizing changes nothing. */
  lemma {:induction false} SanitizeOfNormalize(s: string)
    ensures Sanitize(Normalize(s)) == Sanitize(s)
  {
    ReplaceReservedNormalize(s);
    NormalizeIdempotent(ReplaceReserved(s));
  }

  /** Replacing reserved characters in `x + " - " + tail` leaves the
      separator alone. */
  lemma {:induction false} ReplaceReservedLabelled(x: string, tail: string)
    ensures ReplaceReserved(x + " - " + tail)
         == ReplaceReserved(x) + " " + ("- " + ReplaceReserved(tail))
  {
    var a, z := ReplaceReserved(x), ReplaceReserved(tail);
    assert ReplaceReserved(x + " - " + tail) == a + " - " + z by {
      ReplaceReservedConcat(x + " - ", tail);
      ReplaceReservedConcat(x, " - ");
      ReplaceReservedIdentity(" - ");
    }
    SeparatorRegroup(a, z);
  }

  /** Normalising the label before building `label + " - " + tail` and
      sanitizing changes nothing. */
  lemma {:induction false} SanitizeLabelled(a: string, tail: string)
    ensures Sanitize(Normalize(a) + " - " + tail) == Sanitize(a + " - " + tail)
  {
    var rest := "- " + ReplaceReserved(tail);
    ReplaceReservedLabelled(Normalize(a), tail);
    ReplaceReservedLabelled(a, tail);
    ReplaceReservedNormalize(a);
    NormalizeAbsorbsPrefix(ReplaceReserved(a), rest);
  }

  predicate IsAsciiDigit(c: char) {
    '0' <= c <= '9'
  }

  /** The pattern `/(20\d{2})(?:/|$)` matches at index `i` of `p`. Without
      `re.MULTILINE`, `$` matches at the end of `p` and before a newline
      that ends it. */
  predicate YearAt(p: string, i: int) {
    && 0 <= i && i + 5 <= |p|
    && p[i] == '/' && p[i + 1] == '2' && p[i + 2] == '0'
    && IsAsciiDigit(p[i + 3]) && IsAsciiDigit(p[i + 4])
    && (i + 5 == |p| || p[i + 5] == '/' || (i + 6 == |p| && p[i + 5] == '\n'))
  }

  /** `re.search` finds its first match at `i`. */
  predicate FirstYearAt(p: string, i: int) {
    YearAt(p, i) && forall j | 0 <= j < i :: !YearAt(p, j)
  }

  predicate NoYear(p: string) {
    forall i | 0 <= i < |p| :: !YearAt(p, i)
  }

  /** The leftmost match at or after `from`, scanning as `re.search` does. */
  function FindYear(p: string, from: nat): (r: Option<nat>)
    ensures r.Some? ==> from <= r.value && YearAt(p, r.value)
    ensures r.Some? ==> forall j | from <= j < r.value :: !YearAt(p, j)
    ensures r.None? ==> forall j | from <= j < |p| :: !YearAt(p, j)
    decreases |p| - from
  {
    if from + 5 > |p| then None
    else if YearAt(p, from) then Some(from)
    else FindYear(p, from + 1)
  }

  /** `extract_year_or_fallback(relative_path)`: the year of the first
      `/20dd` segment, or else the path without its leading slashes. */
  function ExtractYearOrFallback(p: string): (r: string)
    ensures !NoYear(p) ==> exists i | 0 <= i < |p| :: FirstYearAt(p, i) && r == p[i + 1..i + 5]
    ensures !NoYear(p) ==>
      |r| == 4 && r[0] == '2' && r[1] == '0' && IsAsciiDigit(r[2]) && IsAsciiDigit(r[3])
    ensures NoYear(p) ==> LeadingStripped(p, AnyOf({'/'}), r)
    ensures NoYear(p) ==> |r| == 0 || r[0] != '/'
  {
    match FindYear(p, 0)
    case Some(i) =>
      assert FirstYearAt(p, i);
      p[i + 1..i + 5]
    case None =>
      StripLeadingSpec(p, AnyOf({'/'}));
      StripLeading(p, AnyOf({'/'}))
  }

  /** A year found in the path is one safe word: four ASCII digits. */
  lemma {:induction false} YearIsSafeWord(p: string)
    requires !NoYear(p)
    ensures IsWord(ExtractYearOrFallback(p)) && NoReserved(ExtractYearOrFallback(p))
  {
    var year := ExtractYearOrFallback(p);
    forall i | 0 <= i < 4 ensures !IsWhitespace(year[i]) && !IsReserved(year[i]) {
      DigitIsPlain(year[i]);
    }
  }

  /** A digit is neither whitespace nor reserved. */
  lemma {:induction false} DigitIsPlain(c: char)
    requires IsAsciiDigit(c)
    ensures !IsWhitespace(c) && !IsReserved(c)
  {
  }

  /** Whenever the first match is at `i`, the result is the four
      characters after its slash. */
  lemma {:induction false} ExtractYearAt(p: string, i: int)
    requires FirstYearAt(p, i)
    ensures ExtractYearOrFallback(p) == p[i + 1..i + 5]
  {
    assert !NoYear(p) by {
      assert 0 <= i < |p| && YearAt(p, i);
    }
    var k :| 0 <= k < |p| && FirstYearAt(p, k) && ExtractYearOrFallback(p) == p[k + 1..k + 5];
    assert FirstYearAt(p, k);
    assert YearAt(p, k);
  }

  /** Without a match, the result is the path from its first character that
      is not a slash. */
  lemma {:induction false} ExtractFallbackAt(p: string, k: nat)
    requires NoYear(p)
    requires k <= |p| && (forall j | 0 <= j < k :: p[j] == '/')
    requires k == |p| || p[k] != '/'
    ensures ExtractYearOrFallback(p) == p[k..]
  {
  }

  /** A year segment in the middle of a course path. */
  lemma {:induction false} ExtractYearExampleSegment()
    ensures ExtractYearOrFallback("/course/2021/S/ma0005") == "2021"
  {
    var p := "/course/2021/S/ma0005";
    assert YearAt(p, 7);
    assert forall j | 0 <= j < 7 :: !YearAt(p, j) by {
      assert p[1] != '2';
      assert forall j | 1 <= j < 7 :: p[j] != '/';
    }
    ExtractYearAt(p, 7);
  }

  /** A path without a year loses only its leading slash. */
  lemma {:induction false} ExtractYearExampleFallback()
    ensures ExtractYearOrFallback("/course/noyear/ma0005") == "course/noyear/ma0005"
  {
    var p := "/course/noyear/ma0005";
    assert NoYear(p) by {
      forall i | 0 <= i < |p| ensures !YearAt(p, i) {
        if p[i] == '/' {
          assert i == 0 || i == 7 || i == 14;
        }
      }
    }
    ExtractFallbackAt(p, 1);
  }

  /** `$` also matches before a final newline. */
  lemma {:induction false} ExtractYearExampleNewline()
    ensures ExtractYearOrFallback("/w/2023\n") == "2023"
  {
    var p := "/w/2023\n";
    assert YearAt(p, 2);
    assert !YearAt(p, 0) && !YearAt(p, 1);
    ExtractYearAt(p, 2);
  }

  /** `/20210` is not a year segment; the scan moves on to `/2022`. */
  lemma {:induction false} ExtractYearExampleLonger()
    ensures ExtractYearOrFallback("//20210/2022") == "2022"
  {
    var p := "//20210/2022";
    assert YearAt(p, 7);
    assert forall j | 0 <= j < 7 :: !YearAt(p, j) by {
      assert p[6] == '0';
      assert forall j | 2 <= j < 7 :: p[j] != '/';
    }
    ExtractYearAt(p, 7);
  }
}
