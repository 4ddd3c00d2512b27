/**
 * The pure part of `extract_video_info` in `src/rbg_live_dl/__main__.py`:
 * what it makes of the four values it scrapes from a lecture page. The
 * browser calls that fetch them are not modelled; their results arrive as
 * parameters: the `src` attribute of the player's first `<source>` (which
 * may be missing), the path of the course link's `href` (already taken out
 * of the URL), and the text of the course label and of the page title
 * (which Selenium may report as missing, read as `""`).
 */
module Video {
  import opened Text
  import opened Results
  import opened Naming

  /** The `RuntimeError("HLS URL not found")` the function raises. */
  datatype VideoError = HlsUrlNotFound

  /** The triple `extract_video_info` returns. */
  datatype VideoInfo = VideoInfo(streamUrl: string, folder: string, fileStem: string)

  /** `t or ""` for a text Selenium may report as missing. */
  function OrEmpty(t: Option<string>): string {
    match t
    case None => ""
    case Some(s) => s
  }

  /** The stream-URL check: a missing, empty or blank `src` is an error;
      otherwise the URL is `src` without surrounding whitespace. */
  function ValidateStreamUrl(src: Option<string>): (r: Result<string, VideoError>)
    ensures r.Failure? <==> src.None? || AllWhitespace(src.value)
    ensures r.Success? ==> |r.value| > 0 && Trimmed(r.value)
    ensures r.Success? ==> WhitespacePadded(src.value, r.value)
  {
    match src
    case None => Failure(HlsUrlNotFound)
    case Some(u) =>
      var t := Strip(u);
      if |t| == 0 then Failure(HlsUrlNotFound) else Success(t)
  }

  /** The accepted URL is the one `strip()` gives, and a URL that passed the
      check passes it again unchanged. */
  lemma {:induction false} ValidateStreamUrlStable(src: Option<string>)
    requires src.Some? && !AllWhitespace(src.value)
    ensures ValidateStreamUrl(src) == Success(Strip(src.value))
    ensures ValidateStreamUrl(Some(Strip(src.value))) == ValidateStreamUrl(src)
  {
    var t := ValidateStreamUrl(src).value;
    StripUnique(src.value, t);
    assert WhitespacePadded(t, t) by {
      assert t[0..|t|] == t && t[..0] == [] && t[|t|..] == [];
    }
    StripUnique(t, t);
  }

  /** `extract_video_info` after the page has been read. The course and the
      title are whitespace-normalised, the folder is the sanitized
      `course + " - " + yearOrPath` and the file stem the sanitized title. */
  function ExtractVideoInfo(src: Option<string>, relPath: string, course: Option<string>,
                            title: Option<string>): (r: Result<VideoInfo, VideoError>)
    ensures r.Failure? <==> src.None? || AllWhitespace(src.value)
    ensures r.Success? ==> r.value.streamUrl == Strip(src.value)
    ensures r.Success? ==> IsSafeName(r.value.folder) && |r.value.folder| > 0
    ensures r.Success? ==> IsSafeName(r.value.fileStem)
    ensures r.Success? ==>
      r.value.folder == Sanitize(OrEmpty(course) + " - " + ExtractYearOrFallback(relPath))
    ensures r.Success? ==> r.value.fileStem == Sanitize(OrEmpty(title))
  {
    match ValidateStreamUrl(src)
    case Failure(e) => Failure(e)
    case Success(url) =>
      ValidateStreamUrlStable(src);
      var yearOrPath := ExtractYearOrFallback(relPath);
      var courseText := Normalize(OrEmpty(course));
      var titleText := Normalize(OrEmpty(title));
      SanitizeLabelled(OrEmpty(course), yearOrPath);
      SanitizeOfNormalize(OrEmpty(title));
      LabelledNotBlank(courseText, yearOrPath);
      Success(VideoInfo(url, Sanitize(courseText + " - " + yearOrPath), Sanitize(titleText)))
  }

  /** The separator's dash keeps a labelled name from being blank. */
  lemma {:induction false} LabelledNotBlank(a: string, tail: string)
    ensures !AllWhitespace(a + " - " + tail)
  {
    assert (a + " - " + tail)[|a| + 1] == '-';
  }

  /** The folder splits into the course's words, a lone `-`, and the words of
      the year or path, each with reserved characters replaced. */
  lemma {:induction false} FolderWords(course: string, tail: string)
    ensures Words(Sanitize(course + " - " + tail))
         == Words(ReplaceReserved(course)) + ["-"] + Words(ReplaceReserved(tail))
  {
    var a, z := ReplaceReserved(course), ReplaceReserved(tail);
    var g := " " + ("- " + z);
    assert Words(Sanitize(course + " - " + tail)) == Words(a + g) by {
      SanitizeWords(course + " - " + tail);
      ReplaceReservedLabelled(course, tail);
      ConcatAssoc(a, " ", "- " + z);
    }
    assert Words(a + g) == Words(a) + Words(g) by {
      WordsConcat(a, g);
    }
    assert Words(g) == ["-"] + Words(z) by {
      SeparatorWords(z);
    }
  }

  /** The separator ` - ` splits off as the single word `-`. */
  lemma {:induction false} SeparatorWords(z: string)
    ensures Words(" " + ("- " + z)) == ["-"] + Words(z)
  {
    WordsAfterSpace("- " + z);
    assert "- " + z == "-" + (" " + z);
    WordsWordThenGap("-", " " + z);
    WordsAfterWhitespace(" ", z);
  }

  /** When the course path has a year, the folder is the sanitized course
      label, ` - ` and the year; a blank label leaves `- ` and the year. */
  lemma {:induction false} FolderOfYear(course: string, relPath: string)
    requires !NoYear(relPath)
    ensures var year := ExtractYearOrFallback(relPath);
      Sanitize(course + " - " + year)
        == if AllWhitespace(course) then "- " + year else Sanitize(course) + " - " + year
  {
    YearIsSafeWord(relPath);
    LabelledWord(course, ExtractYearOrFallback(relPath));
  }

  /** A label, ` - ` and a safe single word sanitize to the sanitized
      label, ` - ` and that word. */
  lemma {:induction false} LabelledWord(course: string, w: string)
    requires IsWord(w) && NoReserved(w)
    ensures Sanitize(course + " - " + w)
         == if AllWhitespace(course) then "- " + w else Sanitize(course) + " - " + w
  {
    var ws := Words(ReplaceReserved(course));
    var f := Sanitize(course + " - " + w);
    assert f == Join(ws + ["-", w]) by {
      assert Words(f) == ws + ["-"] + [w] by {
        ReplaceReservedIdentity(w);
        WordsOfWord(w);
        FolderWords(course, w);
      }
      NormalizeFixpoint(f);
      assert ws + ["-"] + [w] == ws + ["-", w];
    }
    JoinLabelled(ws, w);
    assert Sanitize(course) == Join(ws);
    assert AllWhitespace(course) <==> |ws| == 0 by {
      WordsSpec(ReplaceReserved(course));
      JoinNormalized(ws);
    }
  }
}
