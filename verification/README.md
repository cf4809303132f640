# FPVS Image Resizer: batch core in Dafny

The FPVS Image Resizer standardises a folder of stimulus images. Every image
must have the same size and file type before an FPVS experiment runs in
PsychoPy. For each file in the input folder the tool does four things:

- it sorts the file by its lower-cased extension: `.webp` is rejected, six
  raster extensions are accepted, and everything else is unsupported;
- it scales an accepted image just enough to cover the target box;
- it crops the centre of the scaled image to exactly the target size;
- it saves the result as `"<root> Resized.<ext>"`, asking first when that
  output already exists.

The loop counts every file it handles. It collects skipped files and write
failures. It checks a cancel flag before each file.

This project models that core as pure functions:

- `PathNames` (`path_names.dfy`): ASCII lower-casing, removal of every `.`,
  and `os.path.splitext`.
- `CoverCrop` (`cover_crop.dfy`): the cover scale, rounding and the centred
  crop. Arithmetic uses exact reals.
- `FileKinds` (`file_kinds.dfy`): classification by extension, normalisation
  of the chosen extension, and the output name.
- `ResizeBatch` (`resize_batch.dfy`): the batch loop as a fold over a sequence
  of file descriptors. A descriptor holds the file name, the result of opening
  the file (its size or an error), whether its pixels decode when `resize`
  needs them, whether the output exists, the user's overwrite answer and the
  result of saving. The fold also takes a
  cancellation point. The module has reference definitions of the two lists
  and theorems that tie the fold to them.
- `StartRequest` (`start_request.dfy`): the checks `start_processing` makes
  before it launches the batch.

The loop body is passed to the fold as a function value (`BodyFor`). This
lets the fold's theorems be proved once, independently of the extension
tests.

## Model

| member | source | states |
|---|---|---|
| PathNames.Lower | FPVSImageResizer.py:40 | `lower()` keeps the length and lower-cases each character on its own; `LowerIsIdempotent` and `LowerAppend` state what follows from that |
| PathNames.LowerIsIdempotent | FPVSImageResizer.py:40 | lower-casing leaves no upper-case letter, keeps every dot where it was, and applying it twice changes nothing |
| PathNames.RemoveDots | FPVSImageResizer.py:332 | `replace(".", "")` leaves no dot and never lengthens the text |
| PathNames.RemoveDotsMembers | FPVSImageResizer.py:332 | a character survives the removal exactly when it occurs in the input and is not a dot |
| PathNames.RemoveDotsOfDotFree | FPVSImageResizer.py:332 | text without a dot passes through unchanged |
| PathNames.RemoveDotsAppend | FPVSImageResizer.py:332 | removing dots keeps every other character in its original order: it distributes over concatenation |
| PathNames.LastIndexOf | FPVSImageResizer.py:39 | the `rfind` inside `splitext`: the result is the last position holding the character, and -1 exactly when it does not occur; `LastIndexOfUnique` shows these facts fix the result |
| PathNames.SplitExt | FPVSImageResizer.py:39 | root and extension together are as long as the name, and a non-empty extension starts with a dot; `SplitExtPartition`, `SplitExtShape` and `SplitExtOfSuffix` state the split exactly |
| PathNames.SplitExtPartition | FPVSImageResizer.py:39 | `splitext` partitions the name: root followed by extension is the name, and the root is the whole name exactly when the extension is empty |
| PathNames.SplitExtShape | FPVSImageResizer.py:39 | the extension is empty or starts at a dot and holds no further dot and no separator; a non-empty extension has a non-dot character before it in the last path component, so leading dots never start an extension |
| PathNames.SplitExtOfSuffix | FPVSImageResizer.py:70-71 | a root that has a non-dot character in its last component, followed by `.` and a dot-free, separator-free extension, splits back into exactly that root and `.ext` |
| PathNames.SplitExtLower | FPVSImageResizer.py:39-40 | lower-casing commutes with `splitext`: the extension of the lower-cased name is the lower-cased extension |
| FileKinds.Classify | FPVSImageResizer.py:39-50 | only a name holding a dot is ever `.webp` or an image; `ClassifyOfSuffix`, `ClassifyWithoutDot` and `ClassifyDotFile` say which names get which kind |
| FileKinds.ClassifyOfSuffix | FPVSImageResizer.py:24-50 | a name `root.e`, with a non-dot character in the root's last component and no dot or separator in `e`, is `.webp` exactly when `e` in lower case is `webp`, and an image exactly when `.e` in lower case is one of `.jpg .jpeg .png .bmp .tif .tiff` |
| FileKinds.ClassifyWithoutDot | FPVSImageResizer.py:39-50 | a name without a dot has no extension and is unsupported |
| FileKinds.ClassifyDotFile | FPVSImageResizer.py:39-50 | a dot file such as `.png` or `.webp` has no extension, so it is unsupported and never opened |
| FileKinds.ClassifyIgnoresCase | FPVSImageResizer.py:39-40 | two names that agree after lower-casing get the same kind |
| FileKinds.NormaliseExtension | FPVSImageResizer.py:332 | the desired extension has no dot and no upper-case letter and is no longer than the choice |
| FileKinds.NormaliseFixedPoints | FPVSImageResizer.py:332 | a dot-free lower-case choice passes through unchanged, and normalising twice equals normalising once |
| FileKinds.NormaliseChoices | FPVSImageResizer.py:220-222 | the selector's choices `.jpg`, `.jpeg` and `.png` become `jpg`, `jpeg` and `png` |
| FileKinds.OutputName | FPVSImageResizer.py:70-72 | the output name has no separator when neither the input name nor the desired extension has one, so the file joined to the output folder stays in it |
| FileKinds.OutputNameRoundTrip | FPVSImageResizer.py:70-71 | the output name splits back into the input's root plus `" Resized"` and `.` plus the desired extension, whenever that extension has no dot and no separator |
| FileKinds.OutputNamesCollide | FPVSImageResizer.py:70-75 | two inputs map to the same output name exactly when their roots are equal, as for `a.png` and `a.JPG` |
| FileKinds.OutputIsResizable | FPVSImageResizer.py:220-222 | for every selector choice, each output name is itself classified as an image |
| CoverCrop.RoundHalfEven | FPVSImageResizer.py:62 | `round` returns an integer within one half of its argument; an exact tie goes to the even neighbour, and any other value goes to the strictly nearest integer |
| CoverCrop.CoverScale | FPVSImageResizer.py:61 | the scale is the larger of the two ratios: at that scale both sides reach their targets, and at least one side meets its target exactly |
| CoverCrop.CentredCrop | FPVSImageResizer.py:64-67 | when the resized image is at least the target, the crop has exactly the target size, lies inside the image, and has margins that differ by at most one pixel, with the odd pixel on the right or bottom |
| CoverCrop.CoverAndCrop | FPVSImageResizer.py:59-68 | given positive original sides and a target of at least 1 by 1, both original sides are scaled by one factor at which both reach their targets and one meets it exactly, each resized side is a nearest integer to its scaled side, the resized image covers the target with one side exact, and the crop has the target size, lies inside and is centred |
| CoverCrop.NearestRoundingIsCoverFit | FPVSImageResizer.py:61-68 | scaling by the cover scale, rounding each side to any nearest integer and cropping in the centre always gives such a cover fit |
| CoverCrop.CoverFitsAnyNearestRounding | FPVSImageResizer.py:61-62 | the covering and exact-side facts hold for any nearest-integer rounding of the scaled sides, not only for round-half-to-even |
| ResizeBatch.Handle | FPVSImageResizer.py:38-94 | whatever the descriptor says, a saved crop has exactly the target size and sits centred inside the resized image; `WebpNeverOpened`, `WrittenOutput` and `WriteFailureOnlyIf` state the paths further |
| ResizeBatch.WebpNeverOpened | FPVSImageResizer.py:42-47 | a `.webp` file is skipped whatever its descriptor says about opening, existence, the answer and saving |
| ResizeBatch.WrittenOutput | FPVSImageResizer.py:59-88 | a saved file opened at a positive size and is written as `"<root> Resized.<ext>"`; both of its sides were scaled by one factor that covers the target with one side exact, rounded to nearest integers, and cropped to the target size inside and in the centre |
| ResizeBatch.Record | FPVSImageResizer.py:42-97 | each completed pass adds one to `processed`, only appends to the two lists, and adds at most one entry to them together |
| ResizeBatch.Horizon | FPVSImageResizer.py:33-36 | the loop handles every file unless the cancel flag is first seen set before a file inside the list |
| ResizeBatch.RecordStep | FPVSImageResizer.py:33-97 | one pass extends the lists and count of the first `i` files to those of the first `i + 1` files, and keeps the progress reports monotone and bounded |
| ResizeBatch.Loop | FPVSImageResizer.py:33-99 | from any point on, the loop only appends to the two lists and the reports, counts at most the files that remain, and adds at most one list entry per file it counts |
| ResizeBatch.LoopCancelled | FPVSImageResizer.py:34-36 | at the cancellation point the loop returns what it has, after one last report at the unchanged count |
| ResizeBatch.LoopMatchesReference | FPVSImageResizer.py:33-99 | the fold returns the reference skip list, failure list and count of the files before the cancellation point, unless one of them raises; its progress reports never decrease, never exceed the total, and end at the returned count |
| ResizeBatch.CrashesIffSomeBad | FPVSImageResizer.py:33-99 | a prefix of the files raises exactly when one of its files has a body that raises |
| ResizeBatch.CrashesIffRaises | FPVSImageResizer.py:51-68 | with the resizer's body, a prefix raises exactly when one of its files is an image that opens with a zero side or whose pixels do not decode |
| ResizeBatch.RaisedAtFirst | FPVSImageResizer.py:33-68 | a raising run raises the error of the first file that raises: division by zero for a zero side, otherwise the decoding error |
| ResizeBatch.ProcessImagesInFolder | FPVSImageResizer.py:23-99 | a run raises exactly when a file before the cancellation point is an image with a zero side or with pixels that do not decode, and then with the error of the first such file; otherwise `processed` equals the number of files before that point, the two lists together hold at most `processed` entries, and the progress reports are monotone, bounded by the total and end at `processed` |
| ResizeBatch.RunFromStart | FPVSImageResizer.py:27-99 | for any loop body, a run from the first entry returns exactly when no entry before the cancellation point raises, and then returns that prefix's reference lists and count |
| ResizeBatch.NoCancelLoopHandlesEveryFile | FPVSImageResizer.py:33-99 | for any loop body, an uncancelled run that returns has handled every entry, returns the reference lists, and has one skip, failure or saved output per entry |
| ResizeBatch.CancelledLoopIsPrefixLoop | FPVSImageResizer.py:33-36 | for any loop body, cancelling before entry `c` returns the same result as an uncancelled run over the first `c` entries |
| ResizeBatch.LoopFailuresFrom | FPVSImageResizer.py:86-91 | for any loop body, every entry of a returned run's `write_failures` comes from a handled entry whose save failed, with that save's error |
| ResizeBatch.LoopRecordsSkips | FPVSImageResizer.py:42-94 | for any loop body, every handled entry whose path adds a skip entry finds it in the returned `skip_details` |
| ResizeBatch.TallyCountsEveryFile | FPVSImageResizer.py:42-97 | in a batch that does not raise, every file gives exactly one skip entry, failure entry or saved output |
| ResizeBatch.FailuresMembership | FPVSImageResizer.py:86-91 | an entry is in `write_failures` exactly when some file's path was a failed save, and its reason is that save's error |
| ResizeBatch.SkipsMembership | FPVSImageResizer.py:42-93 | an entry is in `skip_details` exactly when some file's path produced it |
| ResizeBatch.NoCancelHandlesEveryFile | FPVSImageResizer.py:33-99 | without cancellation, a run that returns has `processed` equal to the number of files and the reference lists, and skips plus failures plus saved outputs account for every file |
| ResizeBatch.CancelledRunIsPrefixRun | FPVSImageResizer.py:33-36 | cancelling before file `c` returns the same triple as an uncancelled run over the first `c` files: `processed` is `c`, and later files add no entries |
| ResizeBatch.WriteFailureOnlyIf | FPVSImageResizer.py:49-91 | a file is in `write_failures` only if it was handled, has an image extension, opened with non-zero sides, decoded, was not declined for overwrite, and failed to save with that reason |
| ResizeBatch.SkippedKindsRecorded | FPVSImageResizer.py:42-94 | every handled `.webp` file is in `skip_details` with the `.webp` reason, and every handled unsupported file with "Unsupported file format." |
| StartRequest.StartProcessing | FPVSImageResizer.py:298-334 | the batch launches exactly when both sides parse to at least 1, some file is an image or `.webp`, and the user consents when the folders coincide; otherwise the refusal names the first failing check; a launch uses the typed sides as the target and the normalised choice as the extension |
| StartRequest.ListedMeansNotUnsupported | FPVSImageResizer.py:309-315 | the pre-check's seven extensions accept a folder exactly when the loop would not call every file unsupported |
| StartRequest.LaunchedOutputsAreImages | FPVSImageResizer.py:220-222 | after a launch with one of the selector's choices, every output name has an image extension |

## Left out

- Tk window, menus, help window, progress bar and status text
  (FPVSImageResizer.py:102-292). The progress callback appears as `Report`
  values: a message kind, a count and a total. The message wording is not
  modelled.
- The worker thread and the shared `cancel_requested` flag
  (FPVSImageResizer.py:294-296, 327, 337-338). Cancellation is an index into
  the file sequence. This is sound because the loop returns at the first
  check that reads the flag as set, so later readings never matter. The flag
  itself can be cleared during a run: the Process Images button stays
  enabled (FPVSImageResizer.py:228), and a second click resets it at
  FPVSImageResizer.py:327.
- Imaging-library calls `Image.open`, `resize`, `crop` and `save`
  (FPVSImageResizer.py:52, 63, 68, 87). These are foreign code. The success
  of opening and saving, the image size and their error text are descriptor
  fields. `resize` and `crop` share one field: whether the pixel data
  decodes, as opening reads only the header. A failure there escapes the
  loop with its error, as the zero-side division does. No pixel data is
  modelled, and `crop` is taken never to fail on a box inside the image.
- Filesystem access: `listdir`/`isfile` (the descriptor sequence stands in
  for the file list), `exists`, `abspath`, `makedirs`, opening the output
  folder, and the Windows DPI calls (FPVSImageResizer.py:12-20, 25, 75,
  264-284, 318-319, 370-389). These are I/O.
- `exists` is a field of each descriptor, like the user's answer. An output
  written earlier in the same batch is therefore not tracked as existing.
  `FileKinds.OutputNamesCollide` states when two inputs share an output name.
- The overwrite and same-folder dialogs (FPVSImageResizer.py:76-80,
  320-325). They are input booleans.
- Floating point. The scale and products are exact reals, and `round` is
  round-half-to-even on those exact values. `CoverFitsAnyNearestRounding`
  shows the properties do not depend on the tie rule. The model does not
  claim bit-exact agreement with IEEE doubles.
- `str.lower()` is modelled on ASCII letters only. This does not change any
  classification: the only non-ASCII character that lowers to an ASCII letter
  is the Kelvin sign, which lowers to `k`, and no extension here contains `k`.
- `splitext` is modelled with the POSIX separator `/`. Names returned by
  `listdir` contain no separator, so the Windows separators and drive
  prefixes do not matter here.
- `int()` parsing of the typed dimensions (FPVSImageResizer.py:301-302). Its
  result is a `Parsed` value or `NotAnInteger`.
- The fallback to `"jpg"` when reading the selector raises
  (FPVSImageResizer.py:333-334). Reading a read-only string variable does not
  raise in practice.
- The summary dialog and the error dialog of `run_processing`
  (FPVSImageResizer.py:340-368). They are presentation. A `Raised` run is the
  case that ends in the error dialog.
- The missing-folder `hasattr` guards (FPVSImageResizer.py:265, 318, 371)
  and the unused recount of files at FPVSImageResizer.py:342-343.
