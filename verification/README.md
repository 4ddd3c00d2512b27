# rbg-live-dl naming layer, in Dafny

`rbg_live_dl` logs in to the TUM lecture portal with a browser. It reads one lecture page and downloads the HLS stream to `out/<folder>/<file>.mp4`. Everything the program decides on its own happens in a small layer of string functions in `src/rbg_live_dl/__main__.py`. This project models that layer and proves properties about it:

- `sanitize_filename` replaces the reserved characters `\ / * ? : " < > |` with `_`. It then collapses every whitespace run to a single space and strips both ends.
- `extract_year_or_fallback` returns the year of the first `/20dd` path segment. If there is none, it returns the path with its leading slashes removed.
- The pure part of `extract_video_info`:
  - it checks and trims the stream URL;
  - it normalises the course label and the page title;
  - it builds the folder name `label - yearOrPath` and the file stem, both sanitized.
- The output path that `download_hls` builds with `os.path.join`. `PlanDownload` composes this path with `extract_video_info`, as `main` does.

Modules:

- `Results` (`results.dfy`): `Option` and `Result`, for a missing attribute and a raised error.
- `Text` (`text.dfy`): Python's whitespace class.
  - `IsWhitespace` is exactly the set of characters for which `str.isspace()` holds, which is also what `\s` matches in a `str` pattern.
  - It defines `lstrip`, `rstrip` and `strip`, and `re.sub(r'\s+', ' ', s)` (`CollapseWhitespace`).
  - It defines their composition `Normalize` and an independent reference definition of it: `" ".join(s.split())`, written `Join(Words(s))`.
- `Naming` (`naming.dfy`): the reserved-character replacement, `Sanitize`, the year search `FindYear` and `ExtractYearOrFallback`.
- `Video` (`video.dfy`): stream-URL validation and `ExtractVideoInfo`.
- `Download` (`download.dfy`): the POSIX `os.path.join`, the output path, and its split back into components.

Two results go beyond restating the code:

- The whitespace normalisation that `extract_video_info` applies to the label and the title before sanitizing is redundant. Sanitizing the raw text gives the same names (`SanitizeOfNormalize`, `SanitizeLabelled`).
- When the course path holds a year, the folder is exactly the sanitized label, then ` - `, then the year. If the label is blank, the folder is `- ` and the year (`FolderOfYear`).

This revision handles one hard-coded lecture page (`main`, lines 107-110) and writes `out/<folder>/<file>.mp4`. The fallback of `extract_year_or_fallback` is `lstrip("/")`, which removes every leading slash, not just one.

## Model

| member | source | states |
|---|---|---|
| Text.StripLeadingSpec | src/rbg_live_dl/__main__.py:29 | `lstrip(chars)` leaves a suffix of its input: every dropped character is in the strip set, and the first kept character is not |
| Text.StripTrailingSpec | src/rbg_live_dl/__main__.py:23 | the right half of `strip()` leaves a prefix: every dropped character is whitespace, and the last kept character is not |
| Text.StripLeadingAt | src/rbg_live_dl/__main__.py:29 | `lstrip` has one possible cut point: any cut with only strippable characters before it and a kept character (or the end) at it is the one taken |
| Text.Strip | src/rbg_live_dl/__main__.py:52 | `s.strip()` is trimmed, is empty exactly when `s` is blank, and is `s` minus whitespace padding at both ends |
| Text.StripUnique | src/rbg_live_dl/__main__.py:52 | a trimmed infix that whitespace pads out to `s` can only be `s.strip()` |
| Text.WordsSpec | src/rbg_live_dl/__main__.py:23 | `Words` is the reference definition `s.split()`, which the source does not call; it is used to state what line 23 computes. `s.split()` yields non-empty whitespace-free words, and none exactly when `s` is blank |
| Text.CollapseSpec | src/rbg_live_dl/__main__.py:23 | `re.sub(r'\s+', ' ', s)` for every `s`: a non-empty blank string becomes one space, the empty string stays empty, and any other string becomes its words joined by single spaces, with one space in front exactly when `s` starts with whitespace and one behind exactly when it ends with whitespace |
| Text.StripCollapseIsJoinOfWords | src/rbg_live_dl/__main__.py:23 | `re.sub(r'\s+', ' ', s).strip()` equals `" ".join(s.split())` for every `s` |
| Text.Normalize | src/rbg_live_dl/__main__.py:65 | the label and title normalisation equals `" ".join(s.split())`, is single-spaced and trimmed, is empty exactly for blank input, and is never longer than the input |
| Text.NormalizeFixpoint | src/rbg_live_dl/__main__.py:72 | normalising leaves a string unchanged exactly when it is already single-spaced and trimmed |
| Text.NormalizeIdempotent | src/rbg_live_dl/__main__.py:72 | normalising twice is normalising once |
| Text.WordsOfJoin | src/rbg_live_dl/__main__.py:23 | splitting `" ".join(ws)` gives back the words `ws` |
| Text.WordsConcat | src/rbg_live_dl/__main__.py:75 | the split of `a + b`, where `b` is empty or starts with whitespace, is the split of `a` followed by the split of `b` |
| Text.NormalizeAbsorbsPrefix | src/rbg_live_dl/__main__.py:65 | normalising a piece before joining it to the rest at a space does not change the normalised whole |
| Naming.ReplaceReserved | src/rbg_live_dl/__main__.py:22 | the replacement keeps the length, maps each reserved character to `_`, and keeps every other character in place |
| Naming.ReplaceReservedClasses | src/rbg_live_dl/__main__.py:22 | after the replacement no reserved character is left, and a position is whitespace exactly when it was before |
| Naming.ReplaceReservedNormalize | src/rbg_live_dl/__main__.py:22-23 | replacing reserved characters and normalising whitespace commute |
| Naming.Sanitize | src/rbg_live_dl/__main__.py:21-23 | `sanitize_filename` returns a name with no reserved character, only single spaces, nothing at either end, never longer than the input, and empty exactly for blank input |
| Naming.SanitizeWords | src/rbg_live_dl/__main__.py:21-23 | nothing else changes: the sanitized name splits into exactly the words of the input with reserved characters replaced |
| Naming.SanitizeFixpoint | src/rbg_live_dl/__main__.py:21-23 | sanitizing leaves a string unchanged exactly when it is already a safe name |
| Naming.SanitizeIdempotent | src/rbg_live_dl/__main__.py:21-23 | `sanitize(sanitize(x)) == sanitize(x)` |
| Naming.SanitizeOfNormalize | src/rbg_live_dl/__main__.py:72 | normalising the title before sanitizing it changes nothing |
| Naming.SanitizeLabelled | src/rbg_live_dl/__main__.py:75-76 | normalising the label before building `label - tail` and sanitizing changes nothing |
| Naming.FindYear | src/rbg_live_dl/__main__.py:26 | the scan returns the leftmost position at or after `from` where `/20dd` is followed by `/`, the end, or a final newline, and returns none when there is no such position |
| Naming.ExtractYearOrFallback | src/rbg_live_dl/__main__.py:25-29 | with a match, the result is the four digits of the leftmost match: `20` and two ASCII digits. Without one, it is the path minus its whole run of leading slashes, so it never starts with `/` |
| Naming.ExtractYearAt | src/rbg_live_dl/__main__.py:26-28 | when the first match is at `i`, the result is `p[i+1..i+5]` |
| Naming.ExtractFallbackAt | src/rbg_live_dl/__main__.py:29 | without a match, the result is the path from its first character that is not `/` |
| Naming.YearIsSafeWord | src/rbg_live_dl/__main__.py:26-28 | an extracted year is one word without whitespace or reserved characters |
| Naming.ExtractYearExampleSegment | src/rbg_live_dl/__main__.py:25-28 | `/course/2021/S/ma0005` gives `2021` |
| Naming.ExtractYearExampleFallback | src/rbg_live_dl/__main__.py:29 | `/course/noyear/ma0005` gives `course/noyear/ma0005` |
| Naming.ExtractYearExampleNewline | src/rbg_live_dl/__main__.py:26 | `$` also matches before a final newline: `/w/2023\n` gives `2023` |
| Naming.ExtractYearExampleLonger | src/rbg_live_dl/__main__.py:26 | `/20210` is not a year segment, so `//20210/2022` gives `2022` |
| Video.ValidateStreamUrl | src/rbg_live_dl/__main__.py:49-52 | a missing, empty or blank `src` is an error; otherwise the URL is non-empty, trimmed, and `src` minus surrounding whitespace |
| Video.ValidateStreamUrlStable | src/rbg_live_dl/__main__.py:52 | the accepted URL is `src.strip()`, and it passes the check again unchanged |
| Video.ExtractVideoInfo | src/rbg_live_dl/__main__.py:49-81 | fails exactly when the URL check fails. Otherwise the folder and the file stem are safe names, the folder is never empty, and they equal the sanitized raw `label - yearOrPath` and the sanitized raw title |
| Video.FolderWords | src/rbg_live_dl/__main__.py:75-76 | the folder splits into the label's words, a lone `-`, and the words of the year or path |
| Video.FolderOfYear | src/rbg_live_dl/__main__.py:61 | with a year in the course path, the folder is the sanitized label, ` - ` and the year; for a blank label it is `- ` and the year |
| Download.PathJoin | src/rbg_live_dl/__main__.py:84 | `os.path.join(a, b)` ends with `b`; an absolute `b` replaces `a`; otherwise the result is `a`, then a `/` exactly when `a` is non-empty and does not already end in `/`, then `b` |
| Download.OutputPath | src/rbg_live_dl/__main__.py:84-86 | for a non-empty folder and a file without `/`, the path is `out/` + folder + `/` + file + `.mp4` |
| Download.SplitCount | src/rbg_live_dl/__main__.py:84-86 | `Split` is the reference definition `s.split("/")`, which the source does not call; it is used to state the shape of the path built at lines 84-86. A path splits into one more component than it has separators, and no component contains a separator |
| Download.OutputPathParts | src/rbg_live_dl/__main__.py:84-86 | for sanitized names the output path splits back into `out`, the folder and `file.mp4`, and holds exactly two separators |
| Download.PlanDownload | src/rbg_live_dl/__main__.py:105-110 | the lecture `main` downloads fails exactly when the URL check fails. Otherwise its URL is trimmed and non-empty, and its path splits into `out`, the sanitized folder and the sanitized title plus `.mp4`, with exactly two separators |

## Left out

- Browser automation is not modelled: `automated_login`, `wait_for_element`, and every `driver.get`, `find_element` and `get_attribute` call. The values they return are parameters: the `src` attribute as an `Option`, the course-link path, and the label and title texts as `Option`s read with `or ""`.
- `urlparse` is a library call. `ExtractVideoInfo` takes the path it would extract.
- `os.makedirs`, the `YoutubeDL` download and every `print` are file-system, network or console effects. Only the path string is modelled.
- `load_credentials` (JSON file I/O) and `main`'s `try`/`finally` teardown are not modelled. Of `main`, only the hand-off from `extract_video_info` to `download_hls` is modelled, as `PlanDownload`.
- Course enumeration, ordinals, retries, the skip-if-exists check and failure records do not exist in this revision of the code, so they are not modelled.
- ExtractYearOrFallback: `\d` is modelled as the ASCII digits `0`-`9`. In a Python `str` pattern it also matches every other Unicode decimal digit, and no such digit is handled here.
- PathJoin: only the two-argument POSIX `os.path.join` is modelled. The Windows rules are not.
- Strings are sequences of Unicode scalar values. Python strings can also hold lone surrogates, which never count as whitespace and play no other role here.
