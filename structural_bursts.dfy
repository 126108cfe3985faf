/** The capture loop of `__init__.py` (`__save_screenshot_bursts`) in
    on-change mode: after a first screenshot, each round saves a new one
    and compares it with the previous kept screenshot; a new screenshot
    whose similarity score is exactly `1` is removed, otherwise its
    annotated image is moved into the `differences` folder next to it and
    it becomes the previous screenshot. The stop event decides how many
    rounds run, so the rounds are an input sequence. */
module StructuralBursts {
  import opened Images
  import opened PyStr
  import opened Naming
  import opened StructuralCompare

  /** One round as the environment decides it: the time of the new
      screenshot, the shapes `cv2.imread` finds for the previous and the
      new screenshot, and the SSIM score and difference rectangles of the
      comparison. */
  datatype Round = Round(now: string, shapePrevious: Option<Shape>, shapeCurrent: Option<Shape>,
                         score: real, boxes: seq<Rect>)

  /** The score that means "identical". */
  const Identical: real := 1.0

  /** The loop reads `similarity_score` in every round and `compared_image`
      whenever the score is not `1`; otherwise it raises `KeyError`. */
  predicate KeysRead(r: Round)
    ensures KeysRead(r) ==> r.shapePrevious.Some? && r.shapeCurrent.Some? && r.shapePrevious == r.shapeCurrent
  {
    SameSize(r.shapePrevious, r.shapeCurrent) && (r.score != Identical ==> CountRegions(r.boxes) > 0)
  }

  /** The three names one round can add or remove: the new screenshot,
      its annotated image and where that image is archived. */
  datatype RoundFiles = RoundFiles(shot: string, diff: string, archived: string)
  {
    function Touched(): set<string>
    {
      {shot, diff, archived}
    }
  }

  /** The names of a round whose screenshot is saved in `path` at time `now`. */
  function RoundFilesOf(path: string, now: string): RoundFiles
  {
    var shot := DefaultScreenshotPath(path, now);
    RoundFiles(shot, DiffName(shot), ArchivedPath(DiffName(shot)))
  }

  /** The names of every round, in order. */
  function AllRoundFiles(path: string, rounds: seq<Round>): (fs: seq<RoundFiles>)
    ensures |fs| == |rounds|
  {
    seq(|rounds|, k requires 0 <= k < |rounds| => RoundFilesOf(path, rounds[k].now))
  }

  /** The folder after one round with names `f`: the screenshot is saved,
      the annotated image written when a rectangle survives, and then the
      screenshot removed (score `1`) or the annotated image moved to its
      archived name. */
  function FilesAfterRound(files: set<string>, f: RoundFiles, r: Round): set<string>
  {
    var written := if SameSize(r.shapePrevious, r.shapeCurrent) && CountRegions(r.boxes) > 0 then {f.diff} else {};
    var compared := files + {f.shot} + written;
    if r.score == Identical then compared - {f.shot}
    else compared - {f.diff} + {f.archived}
  }

  /** The folder after the given rounds with names `fs`, starting from `start`. */
  function FilesAfter(start: set<string>, fs: seq<RoundFiles>, rounds: seq<Round>): set<string>
    requires |fs| == |rounds|
  {
    if rounds == [] then start
    else
      var n := |rounds| - 1;
      FilesAfterRound(FilesAfter(start, fs[..n], rounds[..n]), fs[n], rounds[n])
  }

  /** `_previous_screen` after the given rounds with names `fs`, starting
      from `first`. */
  function PreviousAfter(first: string, fs: seq<RoundFiles>, rounds: seq<Round>): string
    requires |fs| == |rounds|
  {
    if rounds == [] then first
    else
      var n := |rounds| - 1;
      if rounds[n].score != Identical then fs[n].shot
      else PreviousAfter(first, fs[..n], rounds[..n])
  }

  /** One round of the loop: save, compare, then remove the new screenshot
      or archive its annotated image. */
  method Step(files0: set<string>, previous0: string, path: string, r: Round)
    returns (files: set<string>, previous: string)
    requires KeysRead(r)
    ensures files == FilesAfterRound(files0, RoundFilesOf(path, r.now), r)
    ensures previous == if r.score != Identical then DefaultScreenshotPath(path, r.now) else previous0
  {
    var current := DefaultScreenshotPath(path, r.now);
    files := files0 + {current};
    var results;
    results, files := CompareImages(previous0, current, r.shapePrevious, r.shapeCurrent, r.score, r.boxes, files);
    previous := previous0;
    if results[ScoreKey] == Score(Identical) {
      if current in files {
        files := files - {current};
      }
    } else {
      var compared := results[ComparedKey].text;
      var fileName := LastSegment(compared);
      var rootFolder := Replace(compared, fileName, "");
      var newFilePath := Join(rootFolder, DifferencesFolderName);
      files := files - {compared} + {Join(newFilePath, fileName)};
      previous := current;
    }
  }

  /** `__save_screenshot_bursts(stop_event, path, interval, True)` run
      against the folder contents `files0`, with `firstNow` the time of the
      first screenshot and `rounds` the rounds before the stop event. */
  method SaveScreenshotBursts(files0: set<string>, path: string, firstNow: string, rounds: seq<Round>)
    returns (files: set<string>, previous: string)
    requires forall k :: 0 <= k < |rounds| ==> KeysRead(rounds[k])
    ensures previous == PreviousAfter(DefaultScreenshotPath(path, firstNow), AllRoundFiles(path, rounds), rounds)
    ensures files == FilesAfter(files0 + {DefaultScreenshotPath(path, firstNow)}, AllRoundFiles(path, rounds), rounds)
  {
    previous := DefaultScreenshotPath(path, firstNow);
    files := files0 + {previous};
    ghost var first := previous;
    ghost var start := files;
    ghost var fs := AllRoundFiles(path, rounds);
    for k := 0 to |rounds|
      invariant previous == PreviousAfter(first, fs[..k], rounds[..k])
      invariant files == FilesAfter(start, fs[..k], rounds[..k])
    {
      assert rounds[..k + 1][..k] == rounds[..k];
      assert fs[..k + 1][..k] == fs[..k];
      assert fs[k] == RoundFilesOf(path, rounds[k].now);
      files, previous := Step(files, previous, path, rounds[k]);
    }
    assert rounds[..|rounds|] == rounds;
    assert fs[..|rounds|] == fs;
  }

  /** `_previous_screen` is the last round whose score was not `1`, or the
      first screenshot when every round was identical. */
  lemma {:induction false} PreviousIsLatestChange(first: string, fs: seq<RoundFiles>, rounds: seq<Round>)
    requires |fs| == |rounds|
    ensures var p := PreviousAfter(first, fs, rounds);
      (p == first && forall k :: 0 <= k < |rounds| ==> rounds[k].score == Identical) ||
      exists k :: 0 <= k < |rounds| && rounds[k].score != Identical && p == fs[k].shot &&
        forall j :: k < j < |rounds| ==> rounds[j].score == Identical
  {
    if rounds != [] {
      var n := |rounds| - 1;
      var init := rounds[..n];
      PreviousIsLatestChange(first, fs[..n], init);
      assert forall k :: 0 <= k < n ==> init[k] == rounds[k] && fs[..n][k] == fs[k];
      if rounds[n].score == Identical {
        var p := PreviousAfter(first, fs[..n], init);
        if p == first && forall k :: 0 <= k < n ==> init[k].score == Identical {
        } else {
          var k :| 0 <= k < n && init[k].score != Identical && p == fs[..n][k].shot &&
            forall j :: k < j < n ==> init[j].score == Identical;
          assert forall j :: k < j < |rounds| ==> rounds[j].score == Identical;
        }
      }
    }
  }

  /** A name that no round from `m` on touches keeps its presence or absence. */
  lemma {:induction false} FilesAfterUntouched(start: set<string>, fs: seq<RoundFiles>, rounds: seq<Round>,
                                               m: nat, name: string)
    requires |fs| == |rounds| && m <= |rounds|
    requires forall j :: m <= j < |rounds| ==> name !in fs[j].Touched()
    ensures name in FilesAfter(start, fs, rounds) <==> name in FilesAfter(start, fs[..m], rounds[..m])
  {
    if |rounds| > m {
      var n := |rounds| - 1;
      assert fs[..n][..m] == fs[..m] && rounds[..n][..m] == rounds[..m];
      FilesAfterUntouched(start, fs[..n], rounds[..n], m, name);
    } else {
      assert fs[..m] == fs && rounds[..m] == rounds;
    }
  }

  /** Files in the folder that no round touches are never removed. */
  lemma KeepsOtherFiles(start: set<string>, fs: seq<RoundFiles>, rounds: seq<Round>, name: string)
    requires |fs| == |rounds|
    requires name in start
    requires forall j :: 0 <= j < |rounds| ==> name !in fs[j].Touched()
    ensures name in FilesAfter(start, fs, rounds)
  {
    FilesAfterUntouched(start, fs, rounds, 0, name);
  }

  /** When the annotated and archived names differ from the screenshot's,
      the screenshot survives its round exactly when the score is not `1`,
      and then the archived image is present. */
  lemma RoundKeepsChanged(files: set<string>, f: RoundFiles, r: Round)
    requires f.diff != f.shot && f.archived != f.shot
    ensures f.shot in FilesAfterRound(files, f, r) <==> r.score != Identical
    ensures r.score != Identical ==> f.archived in FilesAfterRound(files, f, r)
  {
  }

  /** For a default screenshot in a folder without `.png` in its name, the
      screenshot is `path/<stamp>.png`, its annotated image
      `path/<stamp>_diff.png` and the archived image
      `path/differences/<stamp>_diff.png`: three different names. */
  lemma ScreenshotNames(path: string, now: string)
    requires path != [] && path[|path| - 1] != '/'
    requires '/' !in now
    requires Absent(path, ".png")
    requires Absent(path, SanitizeTimestamp(now) + "_diff.png")
    ensures var stamp := SanitizeTimestamp(now);
      RoundFilesOf(path, now) == RoundFiles(path + "/" + stamp + ".png", path + "/" + stamp + "_diff.png",
                                            path + "/differences/" + stamp + "_diff.png")
    ensures var f := RoundFilesOf(path, now); f.diff != f.shot && f.archived != f.shot && f.archived != f.diff
  {
    var stamp := SanitizeTimestamp(now);
    var shot := DefaultScreenshotPath(path, now);
    DefaultScreenshotLayout(path, now);
    DiffNameOfScreenshot(path, now);
    ScreenshotArchive(path, now);
    assert |path + "/" + stamp + ".png"| == |path| + |stamp| + 5;
    assert |path + "/" + stamp + "_diff.png"| == |path| + |stamp| + 10;
    assert |path + "/differences/" + stamp + "_diff.png"| == |path| + |stamp| + 22;
  }

  /** A screenshot whose annotated and archived names differ from its own,
      and which no later round touches, is in the final folder exactly when
      the score of its round was not `1`. */
  lemma RoundFate(start: set<string>, fs: seq<RoundFiles>, rounds: seq<Round>, k: nat)
    requires |fs| == |rounds| && k < |rounds|
    requires fs[k].diff != fs[k].shot && fs[k].archived != fs[k].shot
    requires forall j :: k < j < |rounds| ==> fs[k].shot !in fs[j].Touched()
    ensures fs[k].shot in FilesAfter(start, fs, rounds) <==> rounds[k].score != Identical
  {
    FilesAfterUntouched(start, fs, rounds, k + 1, fs[k].shot);
    assert fs[..k + 1][..k] == fs[..k] && rounds[..k + 1][..k] == rounds[..k];
    RoundKeepsChanged(FilesAfter(start, fs[..k], rounds[..k]), fs[k], rounds[k]);
  }

  /** The annotated image of a changed round ends up archived, unless a
      later round touches that name. */
  lemma ArchivedFate(start: set<string>, fs: seq<RoundFiles>, rounds: seq<Round>, k: nat)
    requires |fs| == |rounds| && k < |rounds|
    requires fs[k].diff != fs[k].shot && fs[k].archived != fs[k].shot
    requires rounds[k].score != Identical
    requires forall j :: k < j < |rounds| ==> fs[k].archived !in fs[j].Touched()
    ensures fs[k].archived in FilesAfter(start, fs, rounds)
  {
    FilesAfterUntouched(start, fs, rounds, k + 1, fs[k].archived);
    assert fs[..k + 1][..k] == fs[..k] && rounds[..k + 1][..k] == rounds[..k];
    RoundKeepsChanged(FilesAfter(start, fs[..k], rounds[..k]), fs[k], rounds[k]);
  }

  /** For default screenshots in a folder without `.png` in its name: the
      screenshot `path/<stamp>.png` of round `k` is in the final folder
      exactly when its score was not `1`, and then
      `path/differences/<stamp>_diff.png` is too, as long as no later round
      touches these names. */
  lemma DefaultRoundFate(start: set<string>, path: string, rounds: seq<Round>, k: nat)
    requires k < |rounds|
    requires path != [] && path[|path| - 1] != '/'
    requires '/' !in rounds[k].now
    requires Absent(path, ".png")
    requires Absent(path, SanitizeTimestamp(rounds[k].now) + "_diff.png")
    requires forall j :: k < j < |rounds| ==>
      AllRoundFiles(path, rounds)[k].shot !in AllRoundFiles(path, rounds)[j].Touched() &&
      AllRoundFiles(path, rounds)[k].archived !in AllRoundFiles(path, rounds)[j].Touched()
    ensures var stamp := SanitizeTimestamp(rounds[k].now);
      var files := FilesAfter(start, AllRoundFiles(path, rounds), rounds);
      (path + "/" + stamp + ".png" in files <==> rounds[k].score != Identical) &&
      (rounds[k].score != Identical ==> path + "/differences/" + stamp + "_diff.png" in files)
  {
    var fs := AllRoundFiles(path, rounds);
    assert fs[k] == RoundFilesOf(path, rounds[k].now);
    ScreenshotNames(path, rounds[k].now);
    RoundFate(start, fs, rounds, k);
    if rounds[k].score != Identical {
      ArchivedFate(start, fs, rounds, k);
    }
  }
}
