/** File names and folders derived by the capture code: the default
    screenshot name built from a timestamp (`save_screenshot` in `temp.py`,
    `__save_screenshot` in `__init__.py`), the annotated `_diff` image name
    and the `differences` archive folder (`__init__.py`). */
module Naming {
  import opened PyStr

  /** The sentinel `file_name` that asks for a timestamp-derived name. */
  const DefaultFileName: string := "current_time_stamp"
  const DefaultExtension: string := "png"
  const DifferencesFolderName: string := "differences"

  /** The characters the timestamp may not keep in a file name. */
  predicate Unsafe(c: char)
  {
    c == ' ' || c == ':' || c == '.'
  }

  /** `str(datetime.now())` with every space, colon and period replaced by
      `-`, position by position; `SanitizeTimestampReplaces` shows this is
      the chain of three `str.replace` calls. */
  function SanitizeTimestamp(now: string): (stamp: string)
    ensures |stamp| == |now|
  {
    seq(|now|, i requires 0 <= i < |now| => if Unsafe(now[i]) then '-' else now[i])
  }

  /** The file name actually used: the given one, or the sanitised timestamp. */
  function FileName(fileName: string, now: string): (name: string)
    ensures fileName != DefaultFileName ==> name == fileName
    ensures fileName == DefaultFileName ==> |name| == |now|
  {
    if fileName == DefaultFileName then SanitizeTimestamp(now) else fileName
  }

  /** `os.path.join(path, file_name + "." + file_extension)`. */
  function ScreenshotPath(path: string, fileName: string, extension: string, now: string): (p: string)
    ensures |p| >= |FileName(fileName, now)| + 1 + |extension|
  {
    Join(path, FileName(fileName, now) + "." + extension)
  }

  /** The path of a screenshot saved with the default arguments at time
      `now`: the folder joined with `<stamp>.png`. */
  function DefaultScreenshotPath(path: string, now: string): (p: string)
    ensures p == Join(path, SanitizeTimestamp(now) + ".png")
  {
    var stamp := SanitizeTimestamp(now);
    assert FileName(DefaultFileName, now) + "." + DefaultExtension == stamp + ".png";
    ScreenshotPath(path, DefaultFileName, DefaultExtension, now)
  }

  /** `image_two.replace(".png", "_diff.png")`. */
  function DiffName(image: string): (diff: string)
    ensures |diff| >= |image|
  {
    ReplaceNotShorter(image, ".png", "_diff.png");
    Replace(image, ".png", "_diff.png")
  }

  /** `os.path.join(compared.replace(compared.split("/")[-1], ""), "differences")`. */
  function DifferencesFolder(compared: string): string
  {
    Join(Replace(compared, LastSegment(compared), ""), DifferencesFolderName)
  }

  /** Where `shutil.move(compared, folder)` puts the annotated image. */
  function ArchivedPath(compared: string): string
  {
    Join(DifferencesFolder(compared), LastSegment(compared))
  }

  /** The moved file keeps its name, the last segment of its path,
      whenever that name is non-empty. */
  lemma ArchivedPathKeepsName(compared: string)
    ensures LastSegment(compared) != [] ==> LastSegment(ArchivedPath(compared)) == LastSegment(compared)
  {
    var name := LastSegment(compared);
    if name != [] {
      LastSegmentNoSeparator(compared);
      LastSegmentOfJoin(DifferencesFolder(compared), name);
    }
  }

  /** The position-wise definition is what `now.replace(" ", "-")
      .replace(":", "-").replace(".", "-")` computes, and its result has
      the length of the timestamp and none of the three characters. */
  lemma SanitizeTimestampReplaces(now: string)
    ensures SanitizeTimestamp(now) == Replace(Replace(Replace(now, " ", "-"), ":", "-"), ".", "-")
    ensures |SanitizeTimestamp(now)| == |now|
    ensures ' ' !in SanitizeTimestamp(now) && ':' !in SanitizeTimestamp(now) && '.' !in SanitizeTimestamp(now)
  {
    var s1 := Replace(now, " ", "-");
    var s2 := Replace(s1, ":", "-");
    var s3 := Replace(s2, ".", "-");
    ReplaceChar(now, ' ', '-');
    ReplaceChar(s1, ':', '-');
    ReplaceChar(s2, '.', '-');
    var r := SanitizeTimestamp(now);
    assert forall i :: 0 <= i < |now| ==> r[i] == s3[i];
  }

  /** Sanitising an already sanitised timestamp changes nothing. */
  lemma SanitizeTimestampIdempotent(now: string)
    ensures SanitizeTimestamp(SanitizeTimestamp(now)) == SanitizeTimestamp(now)
  {
    var r := SanitizeTimestamp(now);
    assert forall i :: 0 <= i < |r| ==> !Unsafe(r[i]);
  }

  /** A screenshot path is the folder, one separator (unless the folder is
      empty or already ends with one) and `name.extension`, and the last
      path segment is `name.extension`. */
  lemma ScreenshotPathLayout(path: string, fileName: string, extension: string, now: string)
    requires '/' !in FileName(fileName, now) && '/' !in extension
    ensures LastSegment(ScreenshotPath(path, fileName, extension, now)) == FileName(fileName, now) + "." + extension
    ensures path != [] && path[|path| - 1] != '/' ==>
      ScreenshotPath(path, fileName, extension, now) == path + "/" + FileName(fileName, now) + "." + extension
    ensures path == [] || path[|path| - 1] == '/' ==>
      ScreenshotPath(path, fileName, extension, now) == path + FileName(fileName, now) + "." + extension
  {
    var f := FileName(fileName, now);
    var name := f + "." + extension;
    assert ScreenshotPath(path, fileName, extension, now) == Join(path, name);
    assert '/' !in name;
    assert name[0] != '/';
    LastSegmentOfJoin(path, name);
    if path == [] || path[|path| - 1] == '/' {
      assert Join(path, name) == path + name;
      assert path + name == path + f + "." + extension;
    } else {
      assert path + "/" + name == path + "/" + f + "." + extension;
    }
  }

  /** With the default arguments and a timestamp free of separators, the
      file name is the sanitised timestamp followed by `.png`. */
  lemma DefaultScreenshotName(path: string, now: string)
    requires '/' !in now
    ensures LastSegment(DefaultScreenshotPath(path, now)) == SanitizeTimestamp(now) + ".png"
  {
    var stamp := SanitizeTimestamp(now);
    StampCharacters(now);
    assert (stamp + ".png")[0] != '/' by {
      assert stamp == [] || (stamp + ".png")[0] == stamp[0];
    }
    LastSegmentOfJoin(path, stamp + ".png");
  }

  /** A name ending in the only `.png` it contains gets `_diff` inserted
      before that extension. */
  lemma DiffNameOfPng(stem: string)
    requires forall i :: 0 <= i < |stem| ==> !OccursAt(stem + ".png", ".png", i)
    ensures DiffName(stem + ".png") == stem + "_diff.png"
  {
    ReplaceFinal(stem, ".png", "_diff.png");
  }

  /** A name that contains `.png` is renamed: the diff image never
      overwrites the screenshot it annotates. */
  lemma DiffNameDiffers(image: string, i: int)
    requires OccursAt(image, ".png", i)
    ensures DiffName(image) != image
  {
    ReplaceLonger(image, ".png", "_diff.png", i);
  }

  /** For an image `dir/base` whose name does not recur inside `dir`, the
      archive folder is `dir/differences` and the archived image keeps its
      name there. */
  lemma ArchiveLayout(dir: string, base: string)
    requires base != [] && '/' !in base
    requires Absent(dir, base)
    ensures DifferencesFolder(dir + "/" + base) == dir + "/differences"
    ensures ArchivedPath(dir + "/" + base) == dir + "/differences/" + base
  {
    var compared := dir + "/" + base;
    var folder := dir + "/differences";
    assert DifferencesFolder(compared) == folder by {
      LastSegmentOfPath(dir, base);
      RemoveFinalName(dir, base);
      assert Join(dir + "/", DifferencesFolderName) == folder;
    }
    assert ArchivedPath(compared) == folder + "/" + base by {
      LastSegmentOfPath(dir, base);
      assert base[0] != '/';
      assert Join(folder, base) == folder + "/" + base;
    }
  }

  lemma LastSegmentOfPath(dir: string, base: string)
    requires '/' !in base
    ensures LastSegment(dir + "/" + base) == base
  {
    LastSegmentAfterSlash(dir + "/", base);
    assert dir + "/" + base == (dir + "/") + base;
  }

  /** Removing the name of `dir/base` from the path leaves `dir/` when the
      name does not occur inside `dir`. */
  lemma RemoveFinalName(dir: string, base: string)
    requires base != [] && '/' !in base
    requires Absent(dir, base)
    ensures Replace(dir + "/" + base, base, "") == dir + "/"
  {
    AbsentUpToSlash(dir, base, base);
    assert dir + "/" + base == (dir + "/") + base;
    ReplaceFinal(dir + "/", base, "");
    assert (dir + "/") + [] == dir + "/";
  }

  /** A timestamp free of separators gives a stamp free of separators and
      periods. */
  lemma StampCharacters(now: string)
    requires '/' !in now
    ensures '/' !in SanitizeTimestamp(now) && '.' !in SanitizeTimestamp(now)
  {
    var stamp := SanitizeTimestamp(now);
    forall k | 0 <= k < |stamp| ensures stamp[k] != '/' && stamp[k] != '.' {
      assert stamp[k] == '-' || stamp[k] == now[k];
    }
  }

  /** In a folder not ending in a separator, a default screenshot is
      `path/<stamp>.png`. */
  lemma DefaultScreenshotLayout(path: string, now: string)
    requires path != [] && path[|path| - 1] != '/'
    requires '/' !in now
    ensures DefaultScreenshotPath(path, now) == path + "/" + SanitizeTimestamp(now) + ".png"
  {
    var stamp := SanitizeTimestamp(now);
    StampCharacters(now);
    assert (stamp + ".png")[0] != '/' by {
      assert stamp == [] || (stamp + ".png")[0] == stamp[0];
    }
    assert path + "/" + (stamp + ".png") == path + "/" + stamp + ".png";
  }

  /** The annotated image of a default screenshot in a folder without
      `.png` in its name is `path/<stamp>_diff.png`. */
  lemma DiffNameOfScreenshot(path: string, now: string)
    requires path != [] && path[|path| - 1] != '/'
    requires '/' !in now
    requires Absent(path, ".png")
    ensures DiffName(DefaultScreenshotPath(path, now)) == path + "/" + SanitizeTimestamp(now) + "_diff.png"
  {
    var stamp := SanitizeTimestamp(now);
    var stem := path + "/" + stamp;
    StampCharacters(now);
    DefaultScreenshotLayout(path, now);
    assert DefaultScreenshotPath(path, now) == stem + ".png";
    AbsentUpToSlash(path, stamp + ".png", ".png");
    assert stem + ".png" == path + "/" + (stamp + ".png");
    forall i | 0 <= i < |stem|
      ensures !OccursAt(stem + ".png", ".png", i)
    {
      if i > |path| {
        assert (stem + ".png")[i] == stamp[i - |path| - 1];
      }
    }
    DiffNameOfPng(stem);
  }

  /** End to end: a default screenshot saved in a folder `path` (not ending
      in a separator, with no `.png` and no copy of the diff image's name
      inside it) is annotated as `path/<stamp>_diff.png` and archived as
      `path/differences/<stamp>_diff.png`. */
  lemma ScreenshotArchive(path: string, now: string)
    requires path != [] && path[|path| - 1] != '/'
    requires '/' !in now
    requires Absent(path, ".png")
    requires Absent(path, SanitizeTimestamp(now) + "_diff.png")
    ensures ArchivedPath(DiffName(DefaultScreenshotPath(path, now))) ==
      path + "/differences/" + SanitizeTimestamp(now) + "_diff.png"
  {
    var stamp := SanitizeTimestamp(now);
    var base := stamp + "_diff.png";
    DiffNameOfScreenshot(path, now);
    assert '/' !in base by {
      StampCharacters(now);
      assert '/' !in "_diff.png";
    }
    assert path + "/" + stamp + "_diff.png" == path + "/" + base;
    ArchiveLayout(path, base);
    assert path + "/differences/" + base == path + "/differences/" + stamp + "_diff.png";
  }
}
