# guiautoml screenshot diffing, modelled in Dafny

guiautoml takes screenshots at intervals. It compares each new screenshot with the last one it kept and keeps only the ones that changed. This project models the deterministic logic under the screen-capture and OpenCV calls:

- **`compare_images` in `temp.py`** (module `PixelDiff`). Images are height x width grids of blue, green and red bytes. The verdict is:
  - `-2` when either shape cannot be read;
  - `-1` when the shapes differ;
  - otherwise the summed count of non-zero entries in the three planes of `cv2.subtract(image1, image2)`.
- **File names** (module `Naming`). Both `save_screenshot` in `temp.py` and `__save_screenshot` in `__init__.py` derive a default name from a sanitised timestamp. `__init__.py` also derives the `_diff` name of the annotated image and the `differences` archive folder. These are built on models of Python's `str.replace`, `os.path.join` (POSIX) and `split("/")[-1]` (module `PyStr`). Images and shapes live in module `Images`.
- **The capture loop of `temp.py`** (module `Bursts`). It counts `duration` up to `exit_interval`. It deletes a new screenshot whose verdict is `0` and otherwise advances `_previous_screen` to it.
- **The result record of `__compare_images` in `__init__.py`** (module `StructuralCompare`). The record is built as a dictionary. Contour rectangles pass an area filter `w*h > 10`, and a running counter counts the ones that do. The annotated image is written under its `_diff` name.
- **The capture loop of `__init__.py`** (module `StructuralBursts`). A new screenshot with similarity score exactly `1` is removed. Otherwise its annotated image is moved into `differences` and `_previous_screen` advances to it.

The folder is modelled as a set of file names. Timestamps, decoded shapes, SSIM scores, contour rectangles and compare verdicts are inputs.

Two behaviours of the code are worth knowing:

- **A round without the keys.** A round whose images cannot be read or differ in shape, or whose score is below `1` with no rectangle of area over 10, makes the loop read an absent key (`similarity_score` or `compared_image`) and raise `KeyError` (`__init__.py:162-167`). The model states these reads as the precondition `StructuralBursts.KeysRead`.
- **The `_diff` name.** `__init__.py:89` replaces every `.png` in the whole path, not only the extension.

## Model

| member | source | states |
|---|---|---|
| PixelDiff.CompareImages | temp.py:7-62 | `-2` exactly when a shape cannot be read; `-1` exactly when both are readable and differ; otherwise the count, which is between `0` and `3 * height * width` |
| PixelDiff.ChannelDiff | temp.py:37 | one channel of the saturating difference is zero exactly when the first value is at most the second; one channel of the absolute difference is zero exactly when they are equal |
| PixelDiff.Classify | temp.py:26-62 | `-2` exactly when an image is missing, `-1` exactly when both are present with different shapes, and a non-negative count exactly when both are present with one shape |
| PixelDiff.Subtract | temp.py:37 | the difference image has the shape of its operands |
| PixelDiff.Plane | temp.py:44 | a split plane has the image's height and width |
| PixelDiff.RowNonZero | temp.py:47 | a row's non-zero count is at most its length |
| PixelDiff.CountNonZero | temp.py:47 | defines `cv2.countNonZero` of a plane: the sum of its rows' non-zero counts |
| PixelDiff.Difference | temp.py:37-47 | the summed non-zero count of the three difference planes is at most `3 * height * width` |
| PixelDiff.RowNonZeroZero | temp.py:47 | a row's count is zero exactly when every entry is zero |
| PixelDiff.CountNonZeroZero | temp.py:47 | `countNonZero` of a plane is zero exactly when every entry is zero |
| PixelDiff.CountNonZeroBound | temp.py:47 | a plane of `h` rows of `w` entries has at most `h * w` non-zero entries |
| PixelDiff.PlaneBound | temp.py:44-47 | one plane of an image has at most `height * width` non-zero entries |
| PixelDiff.PlaneZeroIff | temp.py:44-47 | a plane's count is zero exactly when that channel is zero at every pixel |
| PixelDiff.DifferenceZeroMeansNoChannelDiffers | temp.py:37-47 | a zero sum means every channel difference of every pixel is zero |
| PixelDiff.NoChannelDiffersMeansDifferenceZero | temp.py:37-47 | when every channel difference is zero, the sum is zero |
| PixelDiff.DifferenceZeroIff | temp.py:37-54 | the sum is zero exactly when every channel difference of every pixel is zero |
| PixelDiff.CompareImagesSameIff | temp.py:35-54 | for one shape, the verdict is `0` ("same") exactly when no channel of the first image exceeds the second's |
| PixelDiff.CompareImagesPositive | temp.py:55-59 | a positive verdict comes from two readable images of one shape, equals their summed count, and means some channel of the first image is brighter |
| PixelDiff.CompareImagesSelf | temp.py:51-54 | an image compared with itself is "same" |
| PixelDiff.CompareImagesMissesBrightening | temp.py:37 | a 1x1 black image and a 1x1 white image differ, yet the verdict is `0` |
| PixelDiff.CompareImagesCorrected | temp.py:7-62 | with the absolute difference, the same `-2`/`-1` cases and bounds as the original |
| PixelDiff.CompareImagesCorrectedSameIff | temp.py:37 | with the absolute difference, for one shape, the verdict is `0` exactly when the images are equal |
| PyStr.Replace | temp.py:91 | `str.replace` with a replacement as long as the pattern keeps the string's length |
| PyStr.ReplaceAbsent | temp.py:91 | `str.replace` leaves a string without the pattern unchanged |
| PyStr.ReplaceChar | temp.py:91 | replacing one character keeps the length and changes exactly the positions holding that character |
| PyStr.ReplaceFinal | __init__.py:89 | when the pattern's only occurrence is a suffix, `str.replace` rewrites just that suffix |
| PyStr.ReplaceNotShorter | __init__.py:89 | a replacement at least as long as the pattern never shortens the string |
| PyStr.ReplaceLonger | __init__.py:89 | a longer replacement lengthens any string containing the pattern |
| PyStr.Join | temp.py:93 | the joined path is at least as long as the name and at most the folder, one separator and the name |
| PyStr.JoinLayout | temp.py:93 | `os.path.join` with a relative name is `a + b`, or `a + "/" + b` when `a` is non-empty without a trailing separator; the result ends with `b` |
| PyStr.LastSegment | __init__.py:167 | `split("/")[-1]` is never longer than the path |
| PyStr.LastSegmentNoSeparator | __init__.py:167 | `split("/")[-1]` contains no separator |
| PyStr.LastSegmentIsSuffix | __init__.py:167 | `split("/")[-1]` is a suffix of the path |
| PyStr.LastSegmentAfterSeparator | __init__.py:167 | when `split("/")[-1]` is shorter than the path, a separator comes right before it |
| PyStr.LastSegmentAfterSlash | __init__.py:167 | after a separator, a separator-free name is the last segment |
| PyStr.LastSegmentOfJoin | __init__.py:167 | joining a non-empty, separator-free name onto a folder makes it the last segment |
| PyStr.AbsentUpToSlash | __init__.py:168 | a separator-free pattern absent from `p` cannot start in `p + "/" + q` at any position up to the separator |
| Naming.SanitizeTimestamp | temp.py:90-91 | the sanitised stamp has the timestamp's length |
| Naming.FileName | temp.py:89-91 | a given file name is kept; the sentinel `current_time_stamp` becomes a stamp as long as the timestamp |
| Naming.ScreenshotPath | temp.py:93 | the joined path is at least as long as `name.ext` |
| Naming.DiffName | __init__.py:89 | the `_diff` name is never shorter than the image's name |
| Naming.DifferencesFolder | __init__.py:167-170 | defines the archive folder: the path with every copy of its last segment removed, joined with `differences` |
| Naming.ArchivedPath | __init__.py:167-172 | defines where `shutil.move(compared, folder)` puts the file: the archive folder joined with the file's last segment |
| Naming.ArchivedPathKeepsName | __init__.py:167-172 | the moved file keeps its name, its last path segment, whenever that is non-empty |
| Naming.SanitizeTimestampReplaces | temp.py:89-91 | the sanitised stamp equals the chain of three `str.replace` calls, keeps the timestamp's length, and contains no space, colon or period (the same code is at `__init__.py:121-123`) |
| Naming.SanitizeTimestampIdempotent | temp.py:91 | sanitising twice gives the same stamp as sanitising once |
| Naming.StampCharacters | temp.py:91 | a timestamp without separators gives a stamp with no separator and no period |
| Naming.DefaultScreenshotPath | temp.py:89-93 | the path saved by `save_screenshot(path=path)`, defined as the general path with file name `current_time_stamp` and extension `png`, is `os.path.join(path, <stamp> + ".png")` |
| Naming.DefaultScreenshotLayout | temp.py:89-93 | in a folder not ending in a separator, a default screenshot is saved as `path/<stamp>.png` |
| Naming.ScreenshotPathLayout | temp.py:93 | the path is `path/name.ext`, or `pathname.ext` after an empty folder or trailing separator, and its last segment is `name.ext` (the same code is at `__init__.py:125`) |
| Naming.DefaultScreenshotName | temp.py:89-93 | with default arguments, the saved file's name is `<stamp>.png` |
| Naming.DiffNameOfPng | __init__.py:89 | a name ending in its only `.png` becomes `<stem>_diff.png` |
| Naming.DiffNameDiffers | __init__.py:89 | a name containing `.png` is always renamed, so writing the annotated image never overwrites the screenshot |
| Naming.DiffNameOfScreenshot | __init__.py:89 | the annotated image of a default screenshot in a folder without `.png` in its name is `path/<stamp>_diff.png` |
| Naming.LastSegmentOfPath | __init__.py:167 | the last segment of `dir/base` is `base` |
| Naming.RemoveFinalName | __init__.py:168 | removing the name of `dir/base` leaves `dir/` when the name does not recur in `dir` |
| Naming.ArchiveLayout | __init__.py:167-172 | the archive folder of `dir/base` is `dir/differences`, and the moved file is `dir/differences/base` |
| Naming.ScreenshotArchive | __init__.py:157-172 | a default screenshot's annotated image is archived as `path/differences/<stamp>_diff.png` |
| Bursts.Rounds | temp.py:118-143 | the loop runs no round exactly when `exit_interval <= 0`, and then for any interval |
| Bursts.RoundsSpec | temp.py:118-143 | the loop runs the least `n` rounds with `n * interval >= exit_interval` |
| Bursts.Shots | temp.py:130 | the rounds' screenshot paths, one default path per round, in order |
| Bursts.FilesAfterFrame | temp.py:128-141 | defines one round's effect on the folder: the new screenshot is added, then removed again when in on-change mode its verdict is `0` |
| Bursts.FilesAfter | temp.py:124-143 | defines the folder after a sequence of rounds: each round's effect applied in order to the starting folder |
| Bursts.PreviousAfter | temp.py:128-138 | defines `_previous_screen` after a sequence of rounds: the last round's screenshot when it advanced (on-change mode, verdict not `0`), otherwise the value before that round |
| Bursts.SaveScreenshotBursts | temp.py:108-143 | the final `duration` is `rounds * interval`, at least `exit_interval` and, when positive, less than `exit_interval + interval`; with `exit_interval <= 0` nothing runs, for any interval; the final `_previous_screen` and folder are those of the round-by-round specification over the rounds that ran |
| Bursts.Step | temp.py:125-143 | one round saves a default screenshot; in on-change mode it removes it when the verdict is `0` and otherwise advances `_previous_screen` to it; with `on_change` false the screenshot is kept and `_previous_screen` is unchanged |
| Bursts.PreviousIsLatestChange | temp.py:133-138 | `_previous_screen` is the first screenshot if no round changed, else the screenshot of the last round whose verdict was not `0` |
| Bursts.FilesAfterUntouched | temp.py:130-141 | a name no later round saves keeps its presence or absence |
| Bursts.FrameFate | temp.py:130-138 | a screenshot whose name no later round saves again survives exactly when it was not judged "same" in on-change mode |
| Bursts.KeepsOtherFiles | temp.py:118-143 | files the loop never saves are never deleted |
| StructuralCompare.IsRegion | __init__.py:83-84 | defines the area filter: a rectangle counts as a difference when `w * h > 10` |
| StructuralCompare.SameSize | __init__.py:51-58 | defines `is_same_size`: both shapes were read and are equal; an unreadable image leaves it `False` |
| StructuralCompare.CountRegions | __init__.py:80-85 | the counter never exceeds the number of rectangles |
| StructuralCompare.CompareImages | __init__.py:22-94 | `image_one`, `image_two` and `is_same_size` are always present, and `is_same_size` holds exactly when both shapes are readable and equal; `similarity_score` is present exactly then; `num_differences` and `compared_image` are present exactly when, in addition, some rectangle has area over 10, and then they hold the count and the `_diff` name; no other key appears; the folder gains the `_diff` image exactly in that case |
| StructuralCompare.CountRegionsIsCardinality | __init__.py:80-85 | the counter equals the number of rectangles with `w*h > 10` |
| StructuralCompare.CountRegionsZeroIff | __init__.py:84-92 | the counter stays zero exactly when every rectangle has area at most 10 |
| StructuralCompare.CountRegionsAppend | __init__.py:81-85 | counting two batches of rectangles adds up |
| StructuralBursts.RoundFilesOf | __init__.py:157-172 | defines one round's three names: the default screenshot path, its `_diff` name, and the archived path of that `_diff` name |
| StructuralBursts.AllRoundFiles | __init__.py:157-172 | the three names of every round, one entry per round, in order |
| StructuralBursts.FilesAfterRound | __init__.py:157-172 | defines one round's effect on the folder: the screenshot is added; the `_diff` image is added when the shapes match and a rectangle survives; then the screenshot is removed on score `1`, otherwise the `_diff` image is replaced by its archived name |
| StructuralBursts.FilesAfter | __init__.py:153-179 | defines the folder after a sequence of rounds: each round's effect applied in order to the starting folder |
| StructuralBursts.PreviousAfter | __init__.py:162-174 | defines `_previous_screen` after a sequence of rounds: the last round's screenshot when its score was not `1`, otherwise the value before that round |
| StructuralBursts.KeysRead | __init__.py:162-167 | a round whose keys the loop can read has both images decoded with equal shapes |
| StructuralBursts.Step | __init__.py:155-174 | one round gives the folder and `_previous_screen` of the round specification: the new screenshot is removed when the score is `1`; otherwise the annotated image is moved to the archive folder and `_previous_screen` advances |
| StructuralBursts.SaveScreenshotBursts | __init__.py:139-179 | the final `_previous_screen` and folder are those of the round-by-round specification |
| StructuralBursts.PreviousIsLatestChange | __init__.py:162-174 | `_previous_screen` is the first screenshot if every score was `1`, else the screenshot of the last round whose score was not `1` |
| StructuralBursts.FilesAfterUntouched | __init__.py:155-174 | a name no later round saves, writes or moves keeps its presence or absence |
| StructuralBursts.KeepsOtherFiles | __init__.py:150-179 | files the loop never touches are never removed |
| StructuralBursts.ScreenshotNames | __init__.py:157-172 | under the folder conditions, one round's screenshot, annotated image and archived image are `path/<stamp>.png`, `path/<stamp>_diff.png` and `path/differences/<stamp>_diff.png`, three distinct names |
| StructuralBursts.RoundKeepsChanged | __init__.py:157-174 | in one round, the screenshot survives exactly when the score is not `1`, and then the archived image exists |
| StructuralBursts.RoundFate | __init__.py:157-174 | a screenshot that no later round saves, writes or moves is in the final folder exactly when its round's score was not `1` |
| StructuralBursts.ArchivedFate | __init__.py:166-172 | the archived image of a changed round is in the final folder unless a later round saves, writes or moves that name |
| StructuralBursts.DefaultRoundFate | __init__.py:150-174 | end to end: `path/<stamp>.png` is in the final folder exactly when its round's score was not `1`, and then `path/differences/<stamp>_diff.png` is there too, provided no later round touches either name |

## Left out

- Screen capture (`gui.screenshot`, `gui.sleep`), keyboard listening and `start_screenshot_save` are left out. These are interactive I/O. The time of each screenshot is an input string, and the stop event becomes the length of the input round sequence.
- Threads and the stop event are left out; the loop is a bounded sequence of rounds.
- Image decoding, grey conversion, SSIM, Otsu thresholding and contour extraction are left out; these are floating-point library routines. Decoded images, shapes, scores and rectangles are inputs.
- Drawing rectangles is left out, and so is the pixel content that `cv2.imwrite` writes. Only the name it writes is modelled.
- Directories (`os.makedirs`) are left out, and so are failures to create them. The folder is a set of file paths.
- A failing `gui.screenshot` is left out; the model treats every screenshot as saved. In `temp.py` the handler prints an unbound `e` (`temp.py:103-105`), so `save_screenshot` raises `UnboundLocalError`; `__save_screenshot` returns `None` (`__init__.py:134-136`).
- `shutil.move` raising when the archived name already exists is left out. The model lets the moved file replace it.
- Bursts.SaveScreenshotBursts requires `interval > 0` or `exit_interval <= 0`. With `exit_interval <= 0` the loop test fails at once, whatever the interval, and that run is modelled. With `exit_interval > 0`, an interval of `0` never ends the loop and a negative interval makes `gui.sleep` raise; those runs are excluded.
- Bursts.SaveScreenshotBursts takes each round's `compare_images` verdict as an input. `PixelDiff.CompareImages` computes it, but nothing ties the two together for a given pair of files.
- The `on_change=False` branch of `__save_screenshot_bursts` is left out. It calls an undefined `save_screenshot` and raises `NameError`.
- StructuralBursts.SaveScreenshotBursts requires `KeysRead` for every round: equal readable shapes, and a surviving rectangle whenever the score is not `1`. Without them the source raises `KeyError`.
- `print` output is left out.
- `os.path.join` is modelled with POSIX semantics only.

## Findings

| source | as written | input that shows it | evidently intended | confidence | as-written member | corrected member |
|---|---|---|---|---|---|---|
| temp.py:37 | `cv2.subtract(image1, image2)` saturates at zero, so pixels where the second image is brighter count as unchanged | a 1x1 black `image1` and a 1x1 white `image2`: the verdict is `0`, "same", and the new screenshot is deleted | a verdict of `0` only for equal images, as with `cv2.absdiff` | not executed | PixelDiff.CompareImagesMissesBrightening | PixelDiff.CompareImagesCorrectedSameIff |
