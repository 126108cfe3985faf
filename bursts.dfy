/** The capture loop of `temp.py` (`save_screenshot_bursts`): after a first
    screenshot, every `interval` seconds a new one is saved; in on-change
    mode it is deleted again when `compare_images` calls it the same as the
    previous kept one, and otherwise becomes the new previous one. The loop
    ends once the accumulated `duration` reaches `exit_interval`. */
module Bursts {
  import opened Naming

  /** One round as the environment decides it: the timestamp at which the
      new screenshot is saved, and the verdict `compare_images` returns for
      it against the previous kept screenshot. */
  datatype Frame = Frame(now: string, verdict: int)

  /** The verdict that means "same". */
  const Same: int := 0

  /** How many rounds the loop runs: one per `interval` until
      `exitInterval` is reached. A non-positive `exitInterval` ends the
      loop before its first round, whatever the interval. */
  function Rounds(interval: int, exitInterval: int): (n: nat)
    requires interval > 0 || exitInterval <= 0
    ensures n == 0 <==> exitInterval <= 0
    decreases exitInterval
  {
    if exitInterval <= 0 then 0 else 1 + Rounds(interval, exitInterval - interval)
  }

  /** The loop runs the least number of rounds `n` with
      `n * interval >= exitInterval`. */
  lemma {:induction false} RoundsSpec(interval: int, exitInterval: int)
    requires interval > 0 || exitInterval <= 0
    ensures var n := Rounds(interval, exitInterval);
      n * interval >= exitInterval && (n > 0 ==> (n - 1) * interval < exitInterval)
    decreases exitInterval
  {
    if exitInterval > 0 {
      RoundsSpec(interval, exitInterval - interval);
      var n := Rounds(interval, exitInterval);
      assert n * interval == interval + (n - 1) * interval;
    }
  }

  /** One more round adds `interval` to the duration and leaves one round
      fewer to run. */
  lemma RoundsStep(interval: int, exitInterval: int, k: nat, before: int, after: int, remaining: nat)
    requires interval > 0
    requires before == k * interval && before < exitInterval && after == before + interval
    requires Rounds(interval, exitInterval - before) == remaining
    ensures remaining > 0
    ensures after == (k + 1) * interval
    ensures Rounds(interval, exitInterval - after) == remaining - 1
  {
    assert exitInterval - after == (exitInterval - before) - interval;
  }

  /** In on-change mode, a frame judged the same as its predecessor is deleted. */
  predicate Deleted(onChange: bool, f: Frame)
  {
    onChange && f.verdict == Same
  }

  /** In on-change mode, a frame judged different becomes the previous screen. */
  predicate Advances(onChange: bool, f: Frame)
  {
    onChange && f.verdict != Same
  }

  /** The screenshot each round saves, in order. */
  function Shots(path: string, frames: seq<Frame>): (shots: seq<string>)
    ensures |shots| == |frames|
  {
    seq(|frames|, k requires 0 <= k < |frames| => DefaultScreenshotPath(path, frames[k].now))
  }

  /** The files present after one round that saved `shot`: the new
      screenshot is added, and deleted again when the frame is judged the
      same in on-change mode. */
  function FilesAfterFrame(files: set<string>, shot: string, onChange: bool, f: Frame): set<string>
  {
    if Deleted(onChange, f) then files + {shot} - {shot} else files + {shot}
  }

  /** The files present after the given rounds, which saved `shots`,
      starting from `start`. */
  function FilesAfter(start: set<string>, shots: seq<string>, onChange: bool, frames: seq<Frame>): set<string>
    requires |shots| == |frames|
  {
    if frames == [] then start
    else
      var n := |frames| - 1;
      FilesAfterFrame(FilesAfter(start, shots[..n], onChange, frames[..n]), shots[n], onChange, frames[n])
  }

  /** `_previous_screen` after the given rounds, which saved `shots`,
      starting from `first`. */
  function PreviousAfter(first: string, shots: seq<string>, onChange: bool, frames: seq<Frame>): string
    requires |shots| == |frames|
  {
    if frames == [] then first
    else
      var n := |frames| - 1;
      if Advances(onChange, frames[n]) then shots[n]
      else PreviousAfter(first, shots[..n], onChange, frames[..n])
  }

  /** Round `k` in terms of the rounds before it. */
  lemma RoundStep(start: set<string>, first: string, shots: seq<string>, onChange: bool, frames: seq<Frame>, k: nat)
    requires |shots| == |frames| && k < |frames|
    ensures FilesAfter(start, shots[..k + 1], onChange, frames[..k + 1]) ==
      FilesAfterFrame(FilesAfter(start, shots[..k], onChange, frames[..k]), shots[k], onChange, frames[k])
    ensures PreviousAfter(first, shots[..k + 1], onChange, frames[..k + 1]) ==
      if Advances(onChange, frames[k]) then shots[k] else PreviousAfter(first, shots[..k], onChange, frames[..k])
  {
    assert frames[..k + 1][..k] == frames[..k] && shots[..k + 1][..k] == shots[..k];
  }

  /** One round of the loop: save a screenshot, then in on-change mode
      delete it when `compare_images` calls it the same as the previous
      one, or make it the previous one otherwise. */
  method Step(files0: set<string>, previous0: string, path: string, onChange: bool, f: Frame)
    returns (files: set<string>, previous: string)
    ensures files == FilesAfterFrame(files0, DefaultScreenshotPath(path, f.now), onChange, f)
    ensures previous == if Advances(onChange, f) then DefaultScreenshotPath(path, f.now) else previous0
  {
    previous := previous0;
    var current := DefaultScreenshotPath(path, f.now);
    files := files0 + {current};
    if onChange {
      if f.verdict == Same {
        if current in files {
          files := files - {current};
        }
      } else {
        previous := current;
      }
    }
  }

  /** `save_screenshot_bursts(path, interval, on_change, exit_interval)`
      run against the folder contents `files0`, with `firstNow` the time of
      the first screenshot and `frames` what each later round sees. */
  method SaveScreenshotBursts(files0: set<string>, path: string, interval: int, onChange: bool,
                              exitInterval: int, firstNow: string, frames: seq<Frame>)
    returns (files: set<string>, previous: string, duration: int)
    requires interval > 0 || exitInterval <= 0
    requires |frames| >= Rounds(interval, exitInterval)
    ensures duration == Rounds(interval, exitInterval) * interval
    ensures duration >= 0 && duration >= exitInterval
    ensures duration > 0 ==> duration - interval < exitInterval
    ensures var ran := frames[..Rounds(interval, exitInterval)];
      previous == PreviousAfter(DefaultScreenshotPath(path, firstNow), Shots(path, ran), onChange, ran)
    ensures var ran := frames[..Rounds(interval, exitInterval)];
      files == FilesAfter(files0 + {DefaultScreenshotPath(path, firstNow)}, Shots(path, ran), onChange, ran)
  {
    ghost var n := Rounds(interval, exitInterval);
    ghost var ran := frames[..n];
    ghost var shots := Shots(path, ran);
    duration := 0;
    previous := DefaultScreenshotPath(path, firstNow);
    files := files0 + {previous};
    ghost var first := previous;
    ghost var start := files;
    var k := 0;
    while duration < exitInterval
      invariant 0 <= k <= n
      invariant duration == k * interval && duration >= 0
      invariant interval > 0 || duration == 0
      invariant Rounds(interval, exitInterval - duration) == n - k
      invariant k > 0 ==> duration - interval < exitInterval
      invariant previous == PreviousAfter(first, shots[..k], onChange, ran[..k])
      invariant files == FilesAfter(start, shots[..k], onChange, ran[..k])
      decreases exitInterval - duration
    {
      RoundStep(start, first, shots, onChange, ran, k);
      assert ran[k] == frames[k] && shots[k] == DefaultScreenshotPath(path, frames[k].now);
      files, previous := Step(files, previous, path, onChange, frames[k]);
      ghost var before := duration;
      duration := duration + interval;
      RoundsStep(interval, exitInterval, k, before, duration, n - k);
      k := k + 1;
    }
    assert ran[..k] == ran && shots[..k] == shots;
  }

  /** `_previous_screen` is the last frame judged different, or the first
      screenshot when no frame was. */
  lemma {:induction false} PreviousIsLatestChange(first: string, shots: seq<string>, onChange: bool, frames: seq<Frame>)
    requires |shots| == |frames|
    ensures var p := PreviousAfter(first, shots, onChange, frames);
      (p == first && forall k :: 0 <= k < |frames| ==> !Advances(onChange, frames[k])) ||
      exists k :: 0 <= k < |frames| && Advances(onChange, frames[k]) && p == shots[k] &&
        forall j :: k < j < |frames| ==> !Advances(onChange, frames[j])
  {
    if frames != [] {
      var n := |frames| - 1;
      var init := frames[..n];
      PreviousIsLatestChange(first, shots[..n], onChange, init);
      assert forall k :: 0 <= k < n ==> init[k] == frames[k] && shots[..n][k] == shots[k];
      if !Advances(onChange, frames[n]) {
        var p := PreviousAfter(first, shots[..n], onChange, init);
        if p == first && forall k :: 0 <= k < n ==> !Advances(onChange, init[k]) {
        } else {
          var k :| 0 <= k < n && Advances(onChange, init[k]) && p == shots[..n][k] &&
            forall j :: k < j < n ==> !Advances(onChange, init[j]);
          assert forall j :: k < j < |frames| ==> !Advances(onChange, frames[j]);
        }
      }
    }
  }

  /** A name that no round from `m` on saves keeps its presence or absence. */
  lemma {:induction false} FilesAfterUntouched(start: set<string>, shots: seq<string>, onChange: bool,
                                               frames: seq<Frame>, m: nat, name: string)
    requires |shots| == |frames| && m <= |frames|
    requires forall j :: m <= j < |frames| ==> shots[j] != name
    ensures name in FilesAfter(start, shots, onChange, frames) <==>
      name in FilesAfter(start, shots[..m], onChange, frames[..m])
  {
    if |frames| > m {
      var n := |frames| - 1;
      assert shots[..n][..m] == shots[..m] && frames[..n][..m] == frames[..m];
      FilesAfterUntouched(start, shots[..n], onChange, frames[..n], m, name);
    } else {
      assert shots[..m] == shots && frames[..m] == frames;
    }
  }

  /** A screenshot no later round overwrites survives exactly when it was
      not judged the same as its predecessor in on-change mode. */
  lemma FrameFate(start: set<string>, shots: seq<string>, onChange: bool, frames: seq<Frame>, k: nat)
    requires |shots| == |frames| && k < |frames|
    requires forall j :: k < j < |frames| ==> shots[j] != shots[k]
    ensures shots[k] in FilesAfter(start, shots, onChange, frames) <==> !Deleted(onChange, frames[k])
  {
    FilesAfterUntouched(start, shots, onChange, frames, k + 1, shots[k]);
    assert shots[..k + 1][..k] == shots[..k] && frames[..k + 1][..k] == frames[..k];
  }

  /** Files that no round saves are never deleted. */
  lemma KeepsOtherFiles(start: set<string>, shots: seq<string>, onChange: bool, frames: seq<Frame>, name: string)
    requires |shots| == |frames|
    requires name in start
    requires forall j :: 0 <= j < |frames| ==> shots[j] != name
    ensures name in FilesAfter(start, shots, onChange, frames)
  {
    FilesAfterUntouched(start, shots, onChange, frames, 0, name);
  }
}
