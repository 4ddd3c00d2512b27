/**
 * Whitespace handling as the naming layer of `rbg_live_dl` uses it.
 *
 * Python's `\s` (in a `str` pattern), `str.strip()` and `str.split()` all
 * classify characters with `str.isspace()`; `IsWhitespace` is that class.
 * The module defines the three operations the source applies to scraped
 * text, `re.sub(r'\s+', ' ', s)`, `s.strip()` and their composition, and
 * relates them to an independent reference: `" ".join(s.split())`.
 */
module Text {

  /** `str.isspace()`: the characters `\s` matches in a Python `str` pattern:
      space, tab, line feed, vertical tab, form feed, carriage return, the
      information separators U+001C..U+001F, NEL, no-break space, and the
      Unicode space and line/paragraph separators. */
  const WhitespaceChars: set<char> := {
      ' ', '\t', '\n', '\U{B}', '\U{C}', '\r', '\U{1C}', '\U{1D}',
      '\U{1E}', '\U{1F}', '\U{85}', '\U{A0}', '\U{1680}', '\U{2000}', '\U{2001}', '\U{2002}',
      '\U{2003}', '\U{2004}', '\U{2005}', '\U{2006}', '\U{2007}', '\U{2008}', '\U{2009}', '\U{200A}',
      '\U{2028}', '\U{2029}', '\U{202F}', '\U{205F}', '\U{3000}'
    }

  predicate IsWhitespace(c: char) {
    c in WhitespaceChars
  }

  predicate AllWhitespace(s: string) {
    forall i | 0 <= i < |s| :: IsWhitespace(s[i])
  }

  predicate NoWhitespace(s: string) {
    forall i | 0 <= i < |s| :: !IsWhitespace(s[i])
  }

  /** Every whitespace character is a plain space, and no two whitespace
      characters are adjacent. */
  predicate SingleSpaced(s: string) {
    && (forall i | 0 <= i < |s| :: IsWhitespace(s[i]) ==> s[i] == ' ')
    && (forall i | 0 <= i < |s| - 1 :: !(IsWhitespace(s[i]) && IsWhitespace(s[i + 1])))
  }

  /** Neither end of the string is whitespace. */
  predicate Trimmed(s: string) {
    |s| == 0 || (!IsWhitespace(s[0]) && !IsWhitespace(s[|s| - 1]))
  }

  /** The shape of every string the naming layer produces. */
  predicate Normalized(s: string) {
    SingleSpaced(s) && Trimmed(s)
  }

  /** A non-empty run of non-whitespace characters: one element of `s.split()`. */
  predicate IsWord(w: string) {
    |w| > 0 && NoWhitespace(w)
  }

  predicate AllWords(ws: seq<string>) {
    forall k | 0 <= k < |ws| :: IsWord(ws[k])
  }

  /** The `chars` argument of Python's `strip` family: omitted (whitespace)
      or a string read as a set of characters. */
  datatype StripSet = Whitespace | AnyOf(chars: set<char>)

  predicate Strips(cs: StripSet, c: char) {
    match cs
    case Whitespace => IsWhitespace(c)
    case AnyOf(chars) => c in chars
  }

  /** `r` is what remains of `s` once its longest prefix of characters in
      `cs` is gone: a suffix of `s`, everything before it droppable, and its
      first character (if any) kept. */
  predicate LeadingStripped(s: string, cs: StripSet, r: string) {
    && |r| <= |s| && r == s[|s| - |r|..]
    && (forall i | 0 <= i < |s| - |r| :: Strips(cs, s[i]))
    && (|r| == 0 || !Strips(cs, r[0]))
  }

  /** The mirror image of `LeadingStripped` at the end of `s`. */
  predicate TrailingStripped(s: string, cs: StripSet, r: string) {
    && |r| <= |s| && r == s[..|r|]
    && (forall i | |r| <= i < |s| :: Strips(cs, s[i]))
    && (|r| == 0 || !Strips(cs, r[|r| - 1]))
  }

  /** `s.lstrip(chars)`: drops the longest prefix of characters in `cs`.
      `StripLeadingSpec` states what it leaves. */
  function StripLeading(s: string, cs: StripSet): (r: string)
    ensures |r| <= |s|
    ensures |s| > 0 && Strips(cs, s[0]) ==> |r| < |s|
  {
    if |s| > 0 && Strips(cs, s[0]) then StripLeading(s[1..], cs) else s
  }

  /** `s.rstrip(chars)`: drops the longest suffix of characters in `cs`.
      `StripTrailingSpec` states what it leaves. */
  function StripTrailing(s: string, cs: StripSet): (r: string)
    ensures |r| <= |s|
  {
    if |s| > 0 && Strips(cs, s[|s| - 1]) then StripTrailing(s[..|s| - 1], cs) else s
  }

  lemma {:induction false} StripLeadingSpec(s: string, cs: StripSet)
    ensures LeadingStripped(s, cs, StripLeading(s, cs))
    decreases |s|
  {
    if |s| > 0 && Strips(cs, s[0]) {
      var t := s[1..];
      var r := StripLeading(t, cs);
      StripLeadingSpec(t, cs);
      SuffixOfTail(s, r);
      forall i | 0 <= i < |s| - |r| ensures Strips(cs, s[i]) {
        if i > 0 {
          assert s[i] == t[i - 1];
        }
      }
    }
  }

  /** A suffix of `s[1..]` is a suffix of `s`. */
  lemma {:induction false} SuffixOfTail(s: string, r: string)
    requires 0 < |s| && |r| < |s| && r == s[1..][|s| - 1 - |r|..]
    ensures r == s[|s| - |r|..]
  {
    assert forall j | 0 <= j < |r| :: r[j] == s[|s| - |r| + j];
  }

  /** A prefix of `s[..|s| - 1]` is a prefix of `s`. */
  lemma {:induction false} PrefixOfFront(s: string, r: string)
    requires 0 < |s| && |r| < |s| && r == s[..|s| - 1][..|r|]
    ensures r == s[..|r|]
  {
    assert forall j | 0 <= j < |r| :: r[j] == s[j];
  }

  lemma {:induction false} StripTrailingSpec(s: string, cs: StripSet)
    ensures TrailingStripped(s, cs, StripTrailing(s, cs))
    decreases |s|
  {
    if |s| > 0 && Strips(cs, s[|s| - 1]) {
      var t := s[..|s| - 1];
      var r := StripTrailing(t, cs);
      StripTrailingSpec(t, cs);
      PrefixOfFront(s, r);
      forall i | |r| <= i < |s| ensures Strips(cs, s[i]) {
        if i < |t| {
          assert s[i] == t[i];
        }
      }
    }
  }

  /** `s` is `r` with (possibly no) whitespace added at each end. */
  predicate WhitespacePadded(s: string, r: string) {
    exists i | 0 <= i <= |s| - |r| ::
      && s[i..i + |r|] == r
      && AllWhitespace(s[..i])
      && AllWhitespace(s[i + |r|..])
  }

  /** `s.strip()`: the infix of `s` left after removing whitespace at both ends. */
  function Strip(s: string): (r: string)
    ensures Trimmed(r)
    ensures |r| == 0 <==> AllWhitespace(s)
    ensures WhitespacePadded(s, r)
  {
    var left := StripLeading(s, Whitespace);
    var r := StripTrailing(left, Whitespace);
    StripBothEnds(s, left, r);
    r
  }

  /** What `lstrip()` then `rstrip()` leave is `s` minus whitespace at each end. */
  lemma {:induction false} StripBothEnds(s: string, left: string, r: string)
    requires left == StripLeading(s, Whitespace)
    requires r == StripTrailing(left, Whitespace)
    ensures WhitespacePadded(s, r)
    ensures |r| == 0 <==> AllWhitespace(s)
    ensures Trimmed(r)
  {
    StripBothEndsPadded(s, left, r);
    StripBothEndsTrimmed(s, left, r);
    StripBothEndsEmpty(s, left, r);
  }

  lemma {:induction false} StripBothEndsPadded(s: string, left: string, r: string)
    requires left == StripLeading(s, Whitespace)
    requires r == StripTrailing(left, Whitespace)
    ensures WhitespacePadded(s, r)
  {
    var i := |s| - |left|;
    StripLeadingSpec(s, Whitespace);
    StripTrailingSpec(left, Whitespace);
    StrippedPrefixWhitespace(s);
    StrippedSuffixWhitespace(left);
    SliceOfSuffix(s, left, r);
    PaddedWitness(s, r, i);
  }

  /** `lstrip()` removes only whitespace. */
  lemma {:induction false} StrippedPrefixWhitespace(s: string)
    ensures AllWhitespace(s[..|s| - |StripLeading(s, Whitespace)|])
  {
    var n := |s| - |StripLeading(s, Whitespace)|;
    var dropped := s[..n];
    StripLeadingSpec(s, Whitespace);
    forall k | 0 <= k < n ensures IsWhitespace(dropped[k]) {
      assert Strips(Whitespace, s[k]);
    }
  }

  /** `rstrip()` removes only whitespace. */
  lemma {:induction false} StrippedSuffixWhitespace(s: string)
    ensures AllWhitespace(s[|StripTrailing(s, Whitespace)|..])
  {
    var n := |StripTrailing(s, Whitespace)|;
    var dropped := s[n..];
    StripTrailingSpec(s, Whitespace);
    forall k | 0 <= k < |dropped| ensures IsWhitespace(dropped[k]) {
      assert Strips(Whitespace, s[n + k]);
    }
  }

  /** A prefix of a suffix of `s` is an infix of `s`. */
  lemma {:induction false} SliceOfSuffix(s: string, left: string, r: string)
    requires |left| <= |s| && left == s[|s| - |left|..]
    requires |r| <= |left| && r == left[..|r|]
    ensures s[|s| - |left|..|s| - |left| + |r|] == r
    ensures s[|s| - |left| + |r|..] == left[|r|..]
  {
  }

  lemma {:induction false} PaddedWitness(s: string, r: string, i: int)
    requires 0 <= i <= |s| - |r|
    requires s[i..i + |r|] == r
    requires AllWhitespace(s[..i]) && AllWhitespace(s[i + |r|..])
    ensures WhitespacePadded(s, r)
  {
  }

  lemma {:induction false} StripBothEndsTrimmed(s: string, left: string, r: string)
    requires left == StripLeading(s, Whitespace)
    requires r == StripTrailing(left, Whitespace)
    ensures Trimmed(r)
  {
    StripLeadingSpec(s, Whitespace);
    StripTrailingSpec(left, Whitespace);
    if |r| > 0 {
      assert r[0] == left[0];
    }
  }

  lemma {:induction false} StripBothEndsEmpty(s: string, left: string, r: string)
    requires left == StripLeading(s, Whitespace)
    requires r == StripTrailing(left, Whitespace)
    ensures |r| == 0 <==> AllWhitespace(s)
  {
    var i := |s| - |left|;
    StripLeadingSpec(s, Whitespace);
    StripTrailingSpec(left, Whitespace);
    if |r| == 0 {
      assert |left| == 0;
    } else {
      assert s[i + |r| - 1] == r[|r| - 1];
    }
  }

  /** `re.sub(r'\s+', ' ', s)`: every maximal run of whitespace becomes one space. */
  function CollapseWhitespace(s: string): (r: string)
    ensures |r| <= |s|
    decreases |s|
  {
    if |s| == 0 then []
    else if IsWhitespace(s[0]) then
      var rest := StripLeading(s, Whitespace);
      assert Strips(Whitespace, s[0]);
      [' '] + CollapseWhitespace(rest)
    else
      [s[0]] + CollapseWhitespace(s[1..])
  }

  /** `StripLeading` removes exactly the longest droppable prefix: any cut
      point with only droppable characters before it and a kept character
      (or the end) at it is the one `StripLeading` finds. */
  lemma {:induction false} StripLeadingAt(s: string, cs: StripSet, k: nat)
    requires k <= |s|
    requires forall i | 0 <= i < k :: Strips(cs, s[i])
    requires k == |s| || !Strips(cs, s[k])
    ensures StripLeading(s, cs) == s[k..]
  {
    StripLeadingSpec(s, cs);
  }

  /** The mirror image of `StripLeadingAt` for `StripTrailing`. */
  lemma {:induction false} StripTrailingAt(s: string, cs: StripSet, k: nat)
    requires k <= |s|
    requires forall i | k <= i < |s| :: Strips(cs, s[i])
    requires k == 0 || !Strips(cs, s[k - 1])
    ensures StripTrailing(s, cs) == s[..k]
  {
    StripTrailingSpec(s, cs);
  }

  /** Leading whitespace in front of a non-whitespace character is exactly
      what `lstrip()` removes. */
  lemma {:induction false} StripLeadingPadded(p: string, x: string)
    requires AllWhitespace(p)
    requires |x| > 0 && !IsWhitespace(x[0])
    ensures StripLeading(p + x, Whitespace) == x
  {
    var s := p + x;
    assert forall i | 0 <= i < |p| :: s[i] == p[i];
    assert s[|p|] == x[0];
    StripLeadingAt(s, Whitespace, |p|);
    assert s[|p|..] == x;
  }

  /** Trailing whitespace after a non-whitespace character is exactly what
      `rstrip()` removes. */
  lemma {:induction false} StripTrailingPadded(x: string, e: string)
    requires AllWhitespace(e)
    requires |x| > 0 && !IsWhitespace(x[|x| - 1])
    ensures StripTrailing(x + e, Whitespace) == x
  {
    var s := x + e;
    assert forall i | |x| <= i < |s| :: s[i] == e[i - |x|];
    assert s[|x| - 1] == x[|x| - 1];
    StripTrailingAt(s, Whitespace, |x|);
    assert s[..|x|] == x;
  }

  /** Stripping whitespace off a padded non-empty trimmed string recovers it. */
  lemma {:induction false} StripPadded(p: string, j: string, e: string)
    requires AllWhitespace(p) && AllWhitespace(e)
    requires Trimmed(j) && |j| > 0
    ensures Strip(p + j + e) == j
  {
    assert p + j + e == p + (j + e);
    assert (j + e)[0] == j[0];
    StripLeadingPadded(p, j + e);
    StripTrailingPadded(j, e);
  }

  /** `StripPadded` for a string already split as `p + c` with `c == j + e`. */
  lemma {:induction false} StripPaddedConcat(p: string, c: string, j: string, e: string)
    requires c == j + e
    requires AllWhitespace(p) && AllWhitespace(e)
    requires Trimmed(j) && |j| > 0
    ensures Strip(p + c) == j
  {
    ConcatAssoc(p, j, e);
    StripPadded(p, j, e);
  }

  /** A whitespace-free prefix passes through `re.sub(r'\s+', ' ', _)` unchanged. */
  lemma {:induction false} CollapseWordPrefix(w: string, u: string)
    requires NoWhitespace(w)
    ensures CollapseWhitespace(w + u) == w + CollapseWhitespace(u)
    decreases |w|
  {
    if |w| == 0 {
      assert w + u == u;
    } else {
      var x := w[1..] + u;
      assert w + u == [w[0]] + x;
      CollapseKeep(w[0], x);
      assert NoWhitespace(w[1..]) by {
        assert forall i | 0 <= i < |w| - 1 :: w[1..][i] == w[i + 1];
      }
      CollapseWordPrefix(w[1..], u);
      assert [w[0]] + (w[1..] + CollapseWhitespace(u)) == w + CollapseWhitespace(u) by {
        assert w == [w[0]] + w[1..];
      }
    }
  }

  /** A non-whitespace character passes through unchanged. */
  lemma {:induction false} CollapseKeep(c: char, x: string)
    requires !IsWhitespace(c)
    ensures CollapseWhitespace([c] + x) == [c] + CollapseWhitespace(x)
  {
    assert ([c] + x)[1..] == x;
  }

  /** `w` is the longest prefix of `s` that holds no whitespace. */
  predicate FirstWord(s: string, w: string) {
    && |w| <= |s| && w == s[..|w|]
    && NoWhitespace(w)
    && (|w| == |s| || IsWhitespace(s[|w|]))
  }

  /** The longest prefix of `s` that holds no whitespace; `TakeWordSpec`
      states that it is one. */
  function TakeWord(s: string): (w: string)
    ensures |w| <= |s|
    ensures |s| > 0 && !IsWhitespace(s[0]) ==> |w| > 0
  {
    if |s| == 0 || IsWhitespace(s[0]) then [] else [s[0]] + TakeWord(s[1..])
  }

  lemma {:induction false} TakeWordSpec(s: string)
    ensures FirstWord(s, TakeWord(s))
    decreases |s|
  {
    if |s| > 0 && !IsWhitespace(s[0]) {
      TakeWordSpec(s[1..]);
    }
  }

  /** `s.split()`: the maximal whitespace-free runs of `s`, in order.
      `WordsSpec` states that they are words, and that there are none exactly
      when `s` is blank. */
  function Words(s: string): seq<string>
    decreases |s|
  {
    if |s| == 0 then []
    else if IsWhitespace(s[0]) then
      var rest := StripLeading(s, Whitespace);
      assert Strips(Whitespace, s[0]);
      Words(rest)
    else
      var w := TakeWord(s);
      [w] + Words(s[|w|..])
  }

  lemma {:induction false} WordsSpec(s: string)
    ensures AllWords(Words(s))
    ensures |Words(s)| == 0 <==> AllWhitespace(s)
    decreases |s|
  {
    if |s| > 0 {
      if IsWhitespace(s[0]) {
        var rest := StripLeading(s, Whitespace);
        assert Strips(Whitespace, s[0]);
        StripLeadingSpec(s, Whitespace);
        WordsSpec(rest);
        assert AllWhitespace(s) <==> AllWhitespace(rest) by {
          assert s == s[..|s| - |rest|] + rest;
        }
      } else {
        var w := TakeWord(s);
        TakeWordSpec(s);
        WordsSpec(s[|w|..]);
        assert AllWords([w] + Words(s[|w|..]));
      }
    }
  }

  /** Two words joined by one space form a normalised string. */
  lemma {:induction false} JoinPairNormalized(w: string, j: string)
    requires IsWord(w) && Normalized(j) && |j| > 0
    ensures Normalized(w + " " + j)
  {
    var s := w + " " + j;
    forall i | 0 <= i < |s| ensures IsWhitespace(s[i]) ==> s[i] == ' ' {
      if i > |w| {
        assert s[i] == j[i - |w| - 1];
      }
    }
    forall i | 0 <= i < |s| - 1 ensures !(IsWhitespace(s[i]) && IsWhitespace(s[i + 1])) {
      if i > |w| {
        assert s[i] == j[i - |w| - 1];
        assert s[i + 1] == j[i - |w|];
      }
    }
  }

  /** `" ".join(ws)`. */
  function Join(ws: seq<string>): string
  {
    if |ws| == 0 then []
    else if |ws| == 1 then ws[0]
    else ws[0] + " " + Join(ws[1..])
  }

  /** Joining words with single spaces gives a normalised string, empty
      exactly when there are no words. */
  lemma {:induction false} JoinNormalized(ws: seq<string>)
    requires AllWords(ws)
    ensures Normalized(Join(ws))
    ensures |Join(ws)| == 0 <==> |ws| == 0
  {
    if |ws| > 1 {
      assert AllWords(ws[1..]);
      JoinNormalized(ws[1..]);
      JoinPairNormalized(ws[0], Join(ws[1..]));
    }
  }

  lemma ConcatAssoc(a: string, b: string, c: string)
    ensures a + (b + c) == a + b + c
  {
  }

  lemma ConcatRegroup(a: string, b: string, c: string, d: string)
    ensures a + (b + (c + d)) == (a + b + c) + d
  {
  }

  lemma SeparatorRegroup(a: string, z: string)
    ensures a + " - " + z == a + " " + ("- " + z)
  {
  }

  /** One space, or nothing, according to whether `s` starts with whitespace. */
  function LeadingSpace(s: string): string {
    if |s| > 0 && IsWhitespace(s[0]) then " " else ""
  }

  /** One space, or nothing, according to whether `s` ends in whitespace. */
  function TrailingSpace(s: string): string {
    if |s| > 0 && IsWhitespace(s[|s| - 1]) then " " else ""
  }

  /** From a word boundary on, collapsing whitespace yields the words joined
      by single spaces plus one space for trailing whitespace. */
  lemma {:induction false} CollapseFromWordStart(s: string)
    requires |s| == 0 || !IsWhitespace(s[0])
    ensures CollapseWhitespace(s) == Join(Words(s)) + TrailingSpace(s)
    decreases |s|, 1
  {
    if |s| > 0 {
      var w := TakeWord(s);
      var u := s[|w|..];
      TakeWordSpec(s);
      assert s == w + u;
      CollapseWordPrefix(w, u);
      assert Words(s) == [w] + Words(u);
      if |u| == 0 {
        assert s[|s| - 1] == w[|w| - 1];
      } else {
        CollapseWordThenGap(s, w, u);
      }
    }
  }

  /** The step of `CollapseFromWordStart` where the first word of `s` is
      followed by whitespace. */
  lemma {:induction false} CollapseWordThenGap(s: string, w: string, u: string)
    requires s == w + u && |w| > 0
    requires |u| > 0 && IsWhitespace(u[0])
    requires CollapseWhitespace(s) == w + CollapseWhitespace(u)
    requires Words(s) == [w] + Words(u)
    ensures CollapseWhitespace(s) == Join(Words(s)) + TrailingSpace(s)
    decreases |s|, 0
  {
    var v := StripLeading(u, Whitespace);
    StripLeadingSpec(u, Whitespace);
    CollapseGap(u);
    WordsGap(u);
    TrailingSpaceOfSuffix(u, s);
    if |v| == 0 {
      assert TrailingSpace(u) == " ";
    } else {
      TrailingSpaceOfSuffix(v, u);
      CollapseFromWordStart(v);
      var ws := Words(v);
      assert |ws| > 0 by {
        assert !IsWhitespace(v[0]);
      }
      JoinCons(w, ws);
      ConcatRegroup(w, " ", Join(ws), TrailingSpace(v));
    }
  }

  lemma {:induction false} TrailingSpaceOfSuffix(v: string, s: string)
    requires 0 < |v| <= |s| && v == s[|s| - |v|..]
    ensures TrailingSpace(v) == TrailingSpace(s)
  {
    assert v[|v| - 1] == s[|s| - 1];
  }

  /** A run of whitespace collapses to one space. */
  lemma {:induction false} CollapseGap(u: string)
    requires |u| > 0 && IsWhitespace(u[0])
    ensures CollapseWhitespace(u) == " " + CollapseWhitespace(StripLeading(u, Whitespace))
    ensures |StripLeading(u, Whitespace)| == 0 ==> AllWhitespace(u)
  {
    assert Strips(Whitespace, u[0]);
    StripLeadingSpec(u, Whitespace);
  }

  /** A run of whitespace separates words but contributes none. */
  lemma {:induction false} WordsGap(u: string)
    requires |u| > 0 && IsWhitespace(u[0])
    ensures Words(u) == Words(StripLeading(u, Whitespace))
  {
    assert Strips(Whitespace, u[0]);
  }

  lemma {:induction false} JoinCons(w: string, ws: seq<string>)
    requires |ws| > 0
    ensures Join([w] + ws) == w + " " + Join(ws)
  {
    assert ([w] + ws)[1..] == ws;
  }

  /** From a word boundary on, stripping the collapsed text, behind at most
      one space, leaves the words joined by single spaces. */
  lemma {:induction false} StripCollapseFromWordStart(s: string, p: string)
    requires |s| > 0 && !IsWhitespace(s[0])
    requires p == "" || p == " "
    ensures Strip(p + CollapseWhitespace(s)) == Join(Words(s))
  {
    CollapseFromWordStart(s);
    var ws := Words(s);
    WordsSpec(s);
    assert |ws| > 0;
    JoinNormalized(ws);
    var j := Join(ws);
    var e := TrailingSpace(s);
    assert AllWhitespace(p);
    assert AllWhitespace(e);
    StripPaddedConcat(p, CollapseWhitespace(s), j, e);
  }

  /** `re.sub(r'\s+', ' ', s).strip()` equals `" ".join(s.split())`. */
  lemma {:induction false} StripCollapseIsJoinOfWords(s: string)
    ensures Strip(CollapseWhitespace(s)) == Join(Words(s))
  {
    if |s| > 0 {
      if !IsWhitespace(s[0]) {
        StripCollapseFromWordStart(s, "");
        assert "" + CollapseWhitespace(s) == CollapseWhitespace(s);
      } else {
        var t := StripLeading(s, Whitespace);
        assert Strips(Whitespace, s[0]);
        StripLeadingSpec(s, Whitespace);
        assert Words(s) == Words(t);
        assert CollapseWhitespace(s) == " " + CollapseWhitespace(t);
        if |t| > 0 {
          StripCollapseFromWordStart(t, " ");
        } else {
          assert AllWhitespace(CollapseWhitespace(s));
        }
      }
    }
  }

  /** `re.sub(r'\s+', ' ', s)` for every `s`: a blank string collapses to one
      space (or stays empty), and any other string to its words joined by
      single spaces, with one space in front for leading whitespace and one
      behind for trailing whitespace. */
  lemma {:induction false} CollapseSpec(s: string)
    ensures AllWhitespace(s) ==> CollapseWhitespace(s) == (if |s| == 0 then "" else " ")
    ensures !AllWhitespace(s) ==>
      CollapseWhitespace(s) == LeadingSpace(s) + Join(Words(s)) + TrailingSpace(s)
  {
    if |s| > 0 {
      if !IsWhitespace(s[0]) {
        CollapseFromWordStart(s);
        assert LeadingSpace(s) + Join(Words(s)) == Join(Words(s));
      } else {
        var t := StripLeading(s, Whitespace);
        CollapseGap(s);
        WordsGap(s);
        StripLeadingSpec(s, Whitespace);
        if |t| == 0 {
          assert CollapseWhitespace(s) == " ";
        } else {
          assert !IsWhitespace(t[0]);
          assert !AllWhitespace(s) by {
            assert s[|s| - |t|] == t[0];
          }
          CollapseFromWordStart(t);
          TrailingSpaceOfSuffix(t, s);
          ConcatAssoc(" ", Join(Words(t)), TrailingSpace(t));
        }
      }
    }
  }

  /** `strip()` has only one possible result: the trimmed infix that
      whitespace pads out to `s`. */
  lemma {:induction false} StripUnique(s: string, t: string)
    requires WhitespacePadded(s, t) && Trimmed(t)
    ensures Strip(s) == t
  {
    var i :| 0 <= i <= |s| - |t| && s[i..i + |t|] == t
      && AllWhitespace(s[..i]) && AllWhitespace(s[i + |t|..]);
    var p, e := s[..i], s[i + |t|..];
    ThreeParts(s, i, i + |t|);
    if |t| == 0 {
      assert AllWhitespace(s) by {
        assert forall k | 0 <= k < |s| :: s[k] == if k < i then p[k] else e[k - i];
      }
    } else {
      StripPadded(p, t, e);
    }
  }

  lemma ThreeParts(s: string, i: nat, j: nat)
    requires i <= j <= |s|
    ensures s == s[..i] + s[i..j] + s[j..]
  {
  }

  /** Removing whitespace from the ends of a string keeps it no longer. */
  lemma PaddedLength(s: string, r: string)
    requires WhitespacePadded(s, r)
    ensures |r| <= |s|
  {
  }

  /** `re.sub(r'\s+', ' ', s).strip()`, the normalisation `extract_video_info`
      applies to scraped label and title text. It agrees with the reference
      definition `" ".join(s.split())`. */
  function Normalize(s: string): (r: string)
    ensures r == Join(Words(s))
    ensures Normalized(r)
    ensures |r| == 0 <==> AllWhitespace(s)
    ensures |r| <= |s|
  {
    var c := CollapseWhitespace(s);
    var r := Strip(c);
    StripCollapseIsJoinOfWords(s);
    WordsSpec(s);
    JoinNormalized(Words(s));
    PaddedLength(c, r);
    r
  }

  /** Normalising is a no-op exactly on normalised strings. */
  lemma {:induction false} NormalizeFixpoint(s: string)
    ensures Normalize(s) == s <==> Normalized(s)
  {
    if Normalized(s) {
      CollapseSingleSpaced(s);
      if |s| > 0 {
        StripPadded("", s, "");
        assert "" + s + "" == s;
      }
    }
  }

  /** Normalising twice is normalising once. */
  lemma {:induction false} NormalizeIdempotent(s: string)
    ensures Normalize(Normalize(s)) == Normalize(s)
  {
    NormalizeFixpoint(Normalize(s));
  }

  /** A single-spaced string has no whitespace run to collapse. */
  lemma {:induction false} CollapseSingleSpaced(s: string)
    requires SingleSpaced(s)
    ensures CollapseWhitespace(s) == s
    decreases |s|
  {
    if |s| > 0 {
      var rest := s[1..];
      assert SingleSpaced(rest) by {
        assert forall i | 0 <= i < |rest| :: rest[i] == s[i + 1];
      }
      CollapseSingleSpaced(rest);
      if IsWhitespace(s[0]) {
        assert |s| == 1 || !IsWhitespace(s[1]);
        StripLeadingAt(s, Whitespace, 1);
      }
      assert s == [s[0]] + rest;
    }
  }

  /** `TakeWord` stops at the first whitespace character, wherever that is. */
  lemma {:induction false} TakeWordAt(s: string, k: nat)
    requires k <= |s| && NoWhitespace(s[..k])
    requires k == |s| || IsWhitespace(s[k])
    ensures TakeWord(s) == s[..k]
  {
    TakeWordSpec(s);
  }

  /** Whitespace in front of `x` makes no difference to `lstrip()`. */
  lemma {:induction false} StripLeadingWhitespacePrefix(p: string, x: string)
    requires AllWhitespace(p)
    ensures StripLeading(p + x, Whitespace) == StripLeading(x, Whitespace)
    decreases |p|
  {
    if |p| == 0 {
      assert p + x == x;
    } else {
      var s := p + x;
      assert s[0] == p[0];
      assert Strips(Whitespace, s[0]);
      assert s[1..] == p[1..] + x;
      StripLeadingWhitespacePrefix(p[1..], x);
    }
  }

  /** A single word splits into itself. */
  lemma {:induction false} WordsOfWord(w: string)
    requires IsWord(w)
    ensures Words(w) == [w]
  {
    assert w[..|w|] == w;
    TakeWordAt(w, |w|);
    assert w[|w|..] == [];
    assert Words(w) == [w] + Words(w[|w|..]);
  }

  /** `s.split()` undoes `" ".join(ws)` for a list of words. */
  lemma {:induction false} WordsOfJoin(ws: seq<string>)
    requires AllWords(ws)
    ensures Words(Join(ws)) == ws
    decreases |ws|, 1
  {
    if |ws| == 1 {
      WordsOfWord(ws[0]);
    } else if |ws| > 1 {
      WordsOfJoinCons(ws);
    }
  }

  /** The step of `WordsOfJoin` for two or more words. */
  lemma {:induction false} WordsOfJoinCons(ws: seq<string>)
    requires AllWords(ws) && |ws| > 1
    ensures Words(Join(ws)) == ws
    decreases |ws|, 0
  {
    var w := ws[0];
    var tail := ws[1..];
    assert AllWords(tail);
    var j := Join(tail);
    JoinNormalized(tail);
    assert Join(ws) == w + " " + j;
    ConcatAssoc(w, " ", j);
    WordsWordThenGap(w, " " + j);
    WordsAfterSpace(j);
    WordsOfJoin(tail);
    assert ws == [w] + tail;
  }

  /** A word followed by a gap is the first element of the split. */
  lemma {:induction false} WordsWordThenGap(w: string, x: string)
    requires IsWord(w)
    requires |x| == 0 || IsWhitespace(x[0])
    ensures Words(w + x) == [w] + Words(x)
  {
    var s := w + x;
    assert s[..|w|] == w;
    assert |x| > 0 ==> s[|w|] == x[0];
    TakeWordAt(s, |w|);
    assert s[|w|..] == x;
  }

  /** One space in front of a word changes nothing in the split. */
  lemma {:induction false} WordsAfterSpace(j: string)
    requires |j| > 0 && !IsWhitespace(j[0])
    ensures Words(" " + j) == Words(j)
  {
    WordsGap(" " + j);
    StripLeadingPadded(" ", j);
  }

  /** Leading whitespace contributes no word. */
  lemma {:induction false} WordsStripLeading(z: string)
    ensures Words(StripLeading(z, Whitespace)) == Words(z)
  {
    if |z| > 0 && IsWhitespace(z[0]) {
      WordsGap(z);
    } else if |z| > 0 {
      StripLeadingAt(z, Whitespace, 0);
    }
  }

  /** Whitespace in front of `z` changes nothing in the split. */
  lemma {:induction false} WordsAfterWhitespace(p: string, z: string)
    requires AllWhitespace(p)
    ensures Words(p + z) == Words(z)
  {
    if |p| == 0 {
      assert p + z == z;
    } else {
      assert (p + z)[0] == p[0];
      WordsGap(p + z);
      StripLeadingWhitespacePrefix(p, z);
      WordsStripLeading(z);
    }
  }

  /** `" ".join(ws + vs)` is the two joins separated by one space. */
  lemma {:induction false} JoinAppend(ws: seq<string>, vs: seq<string>)
    requires |ws| > 0 && |vs| > 0
    ensures Join(ws + vs) == Join(ws) + " " + Join(vs)
    decreases |ws|
  {
    if |ws| == 1 {
      JoinCons(ws[0], vs);
      assert ws + vs == [ws[0]] + vs;
    } else {
      var tail := ws[1..];
      assert ws + vs == [ws[0]] + (tail + vs);
      JoinCons(ws[0], tail + vs);
      JoinAppend(tail, vs);
      JoinCons(ws[0], tail);
      assert ws == [ws[0]] + tail;
      ConcatRegroup(ws[0], " ", Join(tail), " " + Join(vs));
      ConcatAssoc(ws[0] + " " + Join(tail), " ", Join(vs));
    }
  }

  /** Joining words followed by `-` and `w`. */
  lemma {:induction false} JoinLabelled(ws: seq<string>, w: string)
    ensures Join(ws + ["-", w]) == if |ws| == 0 then "- " + w else Join(ws) + " - " + w
  {
    JoinCons("-", [w]);
    if |ws| == 0 {
      assert ws + ["-", w] == ["-", w];
    } else {
      var j := Join(ws);
      JoinAppend(ws, ["-", w]);
      assert j + " " + ("- " + w) == j + " - " + w;
    }
  }

  /** Splitting a concatenation whose second part starts at a gap splits
      each part on its own. */
  lemma {:induction false} WordsConcat(a: string, b: string)
    requires |b| == 0 || IsWhitespace(b[0])
    ensures Words(a + b) == Words(a) + Words(b)
    decreases |a|, 1
  {
    if |a| == 0 {
      assert a + b == b;
    } else if IsWhitespace(a[0]) {
      WordsConcatGap(a, b);
    } else {
      WordsConcatNonGap(a, b);
    }
  }

  /** The step of `WordsConcat` where `a` starts with a word. */
  lemma {:induction false} WordsConcatNonGap(a: string, b: string)
    requires |a| > 0 && !IsWhitespace(a[0])
    requires |b| == 0 || IsWhitespace(b[0])
    ensures Words(a + b) == Words(a) + Words(b)
    decreases |a|, 0
  {
    var w := TakeWord(a);
    var rest := a[|w|..];
    WordsConcatWord(a, b);
    WordsConcat(rest, b);
    assert Words(a) == [w] + Words(rest);
  }

  /** The first word of `a` is the first word of `a + b` when `b` starts at
      a gap. */
  lemma {:induction false} WordsConcatWord(a: string, b: string)
    requires |a| > 0 && !IsWhitespace(a[0])
    requires |b| == 0 || IsWhitespace(b[0])
    ensures Words(a + b) == [TakeWord(a)] + Words(a[|TakeWord(a)|..] + b)
  {
    var w := TakeWord(a);
    var s := a + b;
    TakeWordSpec(a);
    assert s[..|w|] == w;
    assert |w| < |s| ==> IsWhitespace(s[|w|]) by {
      if |w| < |a| {
        assert s[|w|] == a[|w|];
      } else if |w| < |s| {
        assert s[|w|] == b[0];
      }
    }
    TakeWordAt(s, |w|);
    assert s[|w|..] == a[|w|..] + b;
    assert s[0] == a[0];
  }

  /** The step of `WordsConcat` where `a` starts with whitespace. */
  lemma {:induction false} WordsConcatGap(a: string, b: string)
    requires |a| > 0 && IsWhitespace(a[0])
    requires |b| == 0 || IsWhitespace(b[0])
    ensures Words(a + b) == Words(a) + Words(b)
    decreases |a|, 0
  {
    var t := StripLeading(a, Whitespace);
    WordsGap(a);
    WordsConcatDropGap(a, b);
    if |t| > 0 {
      assert (t + b)[0] == t[0];
      StripLeadingAt(t + b, Whitespace, 0);
      WordsConcat(t, b);
    } else {
      assert t + b == b;
      if |b| > 0 {
        WordsGap(b);
      }
    }
  }

  /** Leading whitespace of `a` is stripped off `a + b` as it is off `a`. */
  lemma {:induction false} WordsConcatDropGap(a: string, b: string)
    requires |a| > 0 && IsWhitespace(a[0])
    ensures Words(a + b) == Words(StripLeading(StripLeading(a, Whitespace) + b, Whitespace))
    ensures var t := StripLeading(a, Whitespace); |t| == 0 || !IsWhitespace(t[0])
  {
    var t := StripLeading(a, Whitespace);
    StripLeadingSpec(a, Whitespace);
    var s := a + b;
    assert s[0] == a[0];
    WordsGap(s);
    var p := a[..|a| - |t|];
    assert a == p + t;
    assert AllWhitespace(p) by {
      assert forall i | 0 <= i < |p| :: Strips(Whitespace, a[i]);
    }
    assert s == p + (t + b);
    StripLeadingWhitespacePrefix(p, t + b);
  }

  /** Normalising a piece before joining it to the rest at a space changes
      nothing once the whole is normalised. */
  lemma {:induction false} NormalizeAbsorbsPrefix(a: string, c: string)
    ensures Normalize(Normalize(a) + " " + c) == Normalize(a + " " + c)
  {
    var g := " " + c;
    WordsConcat(Normalize(a), g);
    WordsConcat(a, g);
    WordsSpec(a);
    WordsOfJoin(Words(a));
    ConcatAssoc(Normalize(a), " ", c);
    ConcatAssoc(a, " ", c);
  }
}
