/**
 * The output path `download_hls` in `src/rbg_live_dl/__main__.py` builds
 * with two calls to `os.path.join` (POSIX rules), and the one lecture that
 * `main` scrapes and hands to the downloader.
 */
module Download {
  import opened Text
  import opened Results
  import opened Naming
  import opened Video

  predicate NoSlash(s: string) {
    '/' !in s
  }

  /** How many separators `s` holds. */
  function Slashes(s: string): nat {
    multiset(s)['/']
  }

  /** `os.path.join(a, b)` on POSIX: an absolute `b` discards `a`; otherwise
      a `/` goes between them unless `a` is empty or already ends in one. */
  function PathJoin(a: string, b: string): (r: string)
    ensures |b| <= |r| && r[|r| - |b|..] == b
    ensures |b| > 0 && b[0] == '/' ==> r == b
    ensures !(|b| > 0 && b[0] == '/') ==> |a| <= |r| && r[..|a|] == a
    ensures !(|b| > 0 && b[0] == '/') ==> |r| <= |a| + 1 + |b|
    ensures !(|b| > 0 && b[0] == '/') ==>
      |a| + |b| <= |r| && r[|a|..|r| - |b|] == (if |a| > 0 && a[|a| - 1] != '/' then "/" else "")
  {
    if |b| > 0 && b[0] == '/' then b
    else if |a| == 0 || a[|a| - 1] == '/' then a + b
    else a + "/" + b
  }

  /** `s.split("/")`: the pieces between separators, in order. */
  function Split(s: string): (parts: seq<string>)
    ensures |parts| > 0
    decreases |s|
  {
    if |s| == 0 then [""]
    else
      var rest := Split(s[1..]);
      if s[0] == '/' then [""] + rest else [[s[0]] + rest[0]] + rest[1..]
  }

  /** A string splits into one more piece than it has separators, and no
      piece holds a separator. */
  lemma {:induction false} SplitCount(s: string)
    ensures |Split(s)| == Slashes(s) + 1
    ensures forall k | 0 <= k < |Split(s)| :: NoSlash(Split(s)[k])
    decreases |s|
  {
    if |s| > 0 {
      var rest := Split(s[1..]);
      SplitCount(s[1..]);
      assert s == [s[0]] + s[1..];
      assert multiset(s) == multiset([s[0]]) + multiset(s[1..]);
      if s[0] != '/' {
        var parts := Split(s);
        assert parts[0] == [s[0]] + rest[0];
        forall k | 0 <= k < |parts| ensures NoSlash(parts[k]) {
          if k > 0 {
            assert parts[k] == rest[k];
          }
        }
      }
    }
  }

  /** A string without separators is a single piece. */
  lemma {:induction false} SplitNoSlash(s: string)
    requires NoSlash(s)
    ensures Split(s) == [s]
    decreases |s|
  {
    if |s| > 0 {
      assert s[0] != '/';
      assert NoSlash(s[1..]) by {
        assert forall c | c in s[1..] :: c in s;
      }
      SplitNoSlash(s[1..]);
      assert s == [s[0]] + s[1..];
    }
  }

  /** A piece without separators, a separator, and the rest split into the
      piece followed by the split of the rest. */
  lemma {:induction false} SplitSeparated(a: string, b: string)
    requires NoSlash(a)
    ensures Split(a + "/" + b) == [a] + Split(b)
    decreases |a|
  {
    var s := a + "/" + b;
    if |a| == 0 {
      assert s == "/" + b;
      assert s[1..] == b;
    } else {
      assert s[0] == a[0];
      assert s[1..] == a[1..] + "/" + b;
      assert NoSlash(a[1..]) by {
        assert forall c | c in a[1..] :: c in a;
      }
      SplitSeparated(a[1..], b);
      assert a == [a[0]] + a[1..];
    }
  }

  /** The directory `download_hls` writes into. */
  function OutputDir(folder: string): string {
    PathJoin("out", folder)
  }

  /** The file `download_hls` writes: `out/<folder>/<file>.mp4`. */
  function OutputPath(folder: string, file: string): (r: string)
    ensures NoSlash(folder) && NoSlash(file) && |folder| > 0 ==>
      r == "out/" + folder + "/" + file + ".mp4"
  {
    OutputPathShape(folder, file);
    PathJoin(OutputDir(folder), file + ".mp4")
  }

  /** Neither join meets an absolute second part or a first part that ends
      in a separator, so each inserts exactly one `/`. */
  lemma {:induction false} OutputPathShape(folder: string, file: string)
    ensures NoSlash(folder) && NoSlash(file) && |folder| > 0 ==>
      PathJoin(OutputDir(folder), file + ".mp4") == "out/" + folder + "/" + file + ".mp4"
  {
    if NoSlash(folder) && NoSlash(file) && |folder| > 0 {
      var dir := OutputDir(folder);
      var name := file + ".mp4";
      assert folder[0] in folder && folder[|folder| - 1] in folder;
      assert dir == "out/" + folder;
      assert dir[|dir| - 1] == folder[|folder| - 1];
      assert name[0] != '/' by {
        if |file| > 0 {
          assert name[0] == file[0] && file[0] in file;
        } else {
          assert name == ".mp4";
        }
      }
      assert PathJoin(dir, name) == dir + "/" + name;
      ConcatAssoc("out/" + folder + "/", file, ".mp4");
    }
  }

  /** For sanitized names the output path has exactly two separators: it
      splits back into `out`, the folder and the file name. */
  lemma {:induction false} OutputPathParts(folder: string, file: string)
    requires NoReserved(folder) && NoReserved(file) && |folder| > 0
    ensures Split(OutputPath(folder, file)) == ["out", folder, file + ".mp4"]
    ensures Slashes(OutputPath(folder, file)) == 2
  {
    assert NoSlash(folder) && NoSlash(file) by {
      NoReservedNoSlash(folder);
      NoReservedNoSlash(file);
    }
    SplitOutputPath(folder, file);
    SplitCount(OutputPath(folder, file));
  }

  lemma {:induction false} SplitOutputPath(folder: string, file: string)
    requires NoSlash(folder) && NoSlash(file) && |folder| > 0
    ensures Split(OutputPath(folder, file)) == ["out", folder, file + ".mp4"]
  {
    var name := file + ".mp4";
    var path := OutputPath(folder, file);
    assert NoSlash(name) by {
      assert forall c | c in name :: c in file || c in ".mp4";
    }
    assert path == "out" + "/" + (folder + "/" + name) by {
      ConcatAssoc("out/" + folder, "/", name);
      assert "out/" + folder + "/" + name == "out" + "/" + (folder + "/" + name);
    }
    SplitSeparated("out", folder + "/" + name);
    SplitSeparated(folder, name);
    SplitNoSlash(name);
  }

  /** A name without reserved characters has no separator. */
  lemma {:induction false} NoReservedNoSlash(s: string)
    requires NoReserved(s)
    ensures NoSlash(s)
  {
  }

  /** What `main` hands to the downloader. */
  datatype Job = Job(streamUrl: string, outPath: string)

  /** `extract_video_info` followed by the path `download_hls` builds. */
  function PlanDownload(src: Option<string>, relPath: string, course: Option<string>,
                        title: Option<string>): (r: Result<Job, VideoError>)
    ensures r.Failure? <==> src.None? || AllWhitespace(src.value)
    ensures r.Success? ==> |r.value.streamUrl| > 0 && Trimmed(r.value.streamUrl)
    ensures r.Success? ==> Split(r.value.outPath) == [
      "out",
      Sanitize(OrEmpty(course) + " - " + ExtractYearOrFallback(relPath)),
      Sanitize(OrEmpty(title)) + ".mp4"]
    ensures r.Success? ==> Slashes(r.value.outPath) == 2
  {
    match ExtractVideoInfo(src, relPath, course, title)
    case Failure(e) => Failure(e)
    case Success(info) =>
      OutputPathParts(info.folder, info.fileStem);
      Success(Job(info.streamUrl, OutputPath(info.folder, info.fileStem)))
  }
}
