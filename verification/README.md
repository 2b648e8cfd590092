# WebP batch converter — Dafny model

This project models `convert_to_webp` from `main.py`. That function converts every image in one folder to WebP. It lists the input folder and keeps the entries whose lower-cased name ends in `.jpg`, `.jpeg`, `.png` or `.webp`. For each kept entry it derives the output path `output_folder/<stem>.webp`, where the stem is the name without its last extension in the sense of `os.path.splitext`. It then opens the image, converts `RGBA` and `P` images to `RGB`, and saves with format `WEBP`, the caller's `quality` and `method=3`. Each entry runs inside `try`/`except Exception`, so an error the image library raises for one entry is reported and the loop goes on.

Modules, one per concept:

- `Text` (`text.dfy`): `str.lower` on ASCII, `str.endswith`, and `str.rfind` for one character.
- `Paths` (`paths.dfy`): POSIX `os.path.join` with two arguments, and `os.path.splitext`.
- `Eligibility` (`eligibility.dfy`): the `allowed_ext` tuple and the case-insensitive extension test.
- `Naming` (`naming.dfy`): the stem and the output path.
- `Modes` (`modes.dfy`): the colour-mode rule.
- `Converter` (`converter.dfy`): the loop body. The image library is a `Codec` value whose `open`, `convert` and `save` either return a value or raise an error (`Result`).
- `Batch` (`batch.dfy`): the loop over the listing (`ConvertToWebp`), its functional meaning (`Run`), and the output folder's contents after the run, given what it held before (`Outputs`).
- `Results` (`results.dfy`): `Option` and `Result`.

The directory listing is an input sequence. `quality` is an unbounded `int` that is passed through unchecked, because the code never validates it.

What `main.py` does not do, and so this model does not either:

- `main.py` does not walk subdirectories.
- It does not resize images.
- It does not check that an output path stays inside the output folder.
- It does not mirror the input's directory structure.
- It has no "skipped" outcome.

An attempted entry either converts or fails, and non-matching entries leave no record.

## Model

| member | source | states |
|---|---|---|
| Paths.Join | main.py:25 | `os.path.join(a, b)`: the result always ends with `b`. An absolute `b` replaces `a`. Otherwise the result starts with `a` and has one `/` inserted exactly when `a` is non-empty and does not already end in `/`. |
| Paths.SplitExt | main.py:24 | `os.path.splitext`: root + extension is the original path. A non-empty extension is a dot plus non-dot, non-`/` characters, and a non-dot character precedes it in the last component. An empty extension means every dot of the last component has only dots before it (so `.png` has no extension). |
| Eligibility.EndsWithAnyIff | main.py:17-20 | `endswith` with a tuple, tried in order, holds iff some entry of the tuple is a suffix. |
| Eligibility.IsEligible | main.py:20 | The eligibility test. An eligible name has at least four characters; `Eligibility.EligibleIff` gives the exact condition. |
| Eligibility.EligibleIff | main.py:17-20 | An entry is eligible iff its lower-cased name ends with one of `.jpg`, `.jpeg`, `.png`, `.webp`. |
| Eligibility.EligibleIgnoresCase | main.py:20 | Names that lower-case alike are both eligible or both not, and a name is eligible iff its lower-cased form is. |
| Eligibility.EligibleExamples | main.py:20 | `A.JPG`, `a.jpg` and `photo.JPEG` are eligible. |
| Eligibility.IneligibleExample | main.py:17-20 | `notes.txt` is not eligible. |
| Naming.OutputPath | main.py:24-25 | The output path ends with `stem + ".webp"`, and so always ends with `.webp`. |
| Naming.StemOfEligible | main.py:24 | Take an eligible name whose lower-cased form ends with allowed extension `e`. Its stem is the name minus the final `len(e)` characters, with earlier dots kept. The exception is a name whose text before the extension is only dots: it keeps its whole name. |
| Naming.StemExampleUpperCase | main.py:24 | The stem of `photo.JPEG` is `photo`. |
| Naming.StemExampleInnerDot | main.py:24 | The stem of `a.b.png` is `a.b`. |
| Naming.StemExampleLeadingDot | main.py:24 | The stem of `.png` is `.png`, so its output is `.png.webp`. |
| Naming.OutputDependsOnlyOnStem | main.py:24-25 | Two names with the same stem get the same output path. |
| Naming.SameStemCollides | main.py:24-25 | `x.jpg` and `x.png` both map to `x.webp` in the output folder. |
| Naming.OutputPathShape | main.py:25 | Take a non-empty output folder not ending in `/` and an entry name without `/`. The output path is `folder/stem.webp`. |
| Modes.NormalizeMode | main.py:31-32 | The saved mode is never `RGBA` or `P`. It differs from the opened mode exactly when that mode is `RGBA` or `P`, and it is then `RGB`. |
| Modes.NormalizeModeIdempotent | main.py:31-32 | Normalising a normalised mode changes nothing. |
| Converter.ConvertOne | main.py:21-44 | One entry's attempt. It records the joined input path, the stem and the `.webp` output path. A save happens iff open and, when needed, the RGB conversion succeeded. The save gets the prepared image, the output path, `WEBP`, the run's quality and `method` 3. The entry counts as converted iff the save succeeded. Otherwise the reported error is the one raised by the first failing step. |
| Converter.SavedModeIsNormalized | main.py:28-39 | Suppose the library's `convert(img, m)` yields mode `m`. Then every saved image carries the normalised mode of the opened image, which is never `RGBA` or `P`. |
| Batch.Eligible | main.py:19-20 | The entries the loop attempts. The filter never has more entries than the listing; `Batch.EligibleContents` and `Batch.EligibleAppend` say which ones, and in what order. |
| Batch.EligibleContents | main.py:19-20 | The filter keeps exactly the eligible entries. Each eligible entry is kept as many times as it occurs in the listing, and ineligible ones not at all. |
| Batch.EligibleAppend | main.py:19-20 | Filtering keeps listing order: the filter of a concatenation is the concatenation of the filters. |
| Batch.Run | main.py:19-44 | A run makes exactly one attempt per eligible entry. |
| Batch.RunAttempts | main.py:19-44 | Attempt `i` of a run is exactly the single-entry attempt on the `i`-th eligible entry. |
| Batch.ConvertToWebp | main.py:4-46 | The loop terminates whenever every library call returns, and its attempts are exactly `Run` over the listing. |
| Batch.RunAppend | main.py:19-44 | A run over a split listing is the run over the first part followed by the run over the second. |
| Batch.RunFilenames | main.py:19-20 | The attempted names are the eligible entries, in listing order. |
| Batch.AttemptedIffEligible | main.py:17-20 | A name is attempted iff it is in the listing and eligible. Other names produce no attempt. |
| Batch.SaveArguments | main.py:34-39 | Every save in a run uses format `WEBP`, the run's quality unchanged, `method` 3, and the entry's stem-derived output path. |
| Batch.OneBadEntry | main.py:27-44 | Suppose one eligible entry's own attempt fails and every other entry's attempt converts. Then the run records exactly one failure and all the other entries convert. |
| Batch.Outputs | main.py:14-39 | The output folder after a run, starting from whatever it already held. Files already in the folder are never removed. |
| Batch.LastWriteWins | main.py:34-35 | A path some converted attempt saved to holds a file after the run, and that file is the image of the last such attempt. |
| Batch.UnwrittenPathKept | main.py:14-15 | A path no converted attempt saved to keeps exactly what the folder held before the run: the same image, or nothing. |
| Batch.SameStemLaterWins | main.py:24-35 | Take eligible entries `i < j` anywhere in a listing with the same stem. Suppose entry `j` converts and no entry after it converts to that output path. Then the shared path holds entry `j`'s image after the run, whatever happened to entry `i` and whatever the folder held before. |
| Batch.LaterEntryOverwrites | main.py:24-35 | If `x.png` converts after `x.jpg`, `x.webp` ends up holding the image saved for `x.png`. |

## Left out

- The PIL calls `Image.open`, `img.convert` and `img.save` (main.py:28-39) are foreign library code. They are the abstract `Codec`: each step may return a value or raise. Decoding, pixel conversion and WebP encoding are not modelled.
- `os.path.exists` and `os.makedirs` for the output folder (main.py:14-15) are filesystem I/O and are not modelled. If they raise, the exception escapes before the loop.
- `os.listdir` (main.py:19) is filesystem I/O. The listing is an input sequence, and a failing listing, which would escape the function, is not modelled.
- The `print` calls (main.py:41, 44, 46) are advisory console output.
- The module-level invocation with fixed folders and quality 55 (main.py:53-57) is configuration glue.
- Text.Lower: only ASCII capitals are lower-cased. Python's full Unicode `str.lower` is not modelled. The extension test only looks at the final characters, and those must be a dot and ASCII letters.
- Paths.Join: follows POSIX `posixpath` semantics. The Windows `ntpath` rules (backslashes, drive letters) are not modelled.
- Batch.RunAttempts: the library's `open` is a fixed function of the path for the whole run, so the model assumes that no output path written in a run is an input path opened later in it. If the input and output folders are the same, `x.png` is saved as `x.webp`, and a later `x.webp` entry then opens that new file. Its outcome then depends on the earlier entry, and this case is not modelled.
- Batch.RunAppend: rests on the same assumption as `Batch.RunAttempts`, that no file written in a run is opened later in it.
- Batch.ConvertToWebp: exceptions raised by `print` are not modelled. Examples are a `UnicodeEncodeError` on a non-UTF-8 console and a `BrokenPipeError`. One raised by the error message at main.py:44 is outside the `try`. It leaves `convert_to_webp`, and no later entry is attempted.
- Batch.ConvertToWebp: termination rests on the `Codec` functions being total. `main.py` has no time-out, and `Image.open` (main.py:28) can block forever, for instance on a FIFO named `x.png` in the input folder.
- Batch.ConvertToWebp: folders are strings. Python also accepts `bytes` folders. `os.listdir` then returns `bytes` names, and the `endswith` test at main.py:20 raises `TypeError` outside the `try`, which ends the run at the first entry. A `bytes` output folder fails the same way at main.py:25. Neither is modelled.
- Converter.ConvertOne: an exception from the success message at main.py:41 is inside the `try`. Python then reports an entry whose file was saved as an error, and this is not modelled.
- File names with bytes that are not valid in the file system encoding are outside the model. `os.listdir` returns them with lone surrogate characters, which a Dafny `char` cannot hold.
- Converter.ConvertOne: every error raised by the library counts as caught. `except Exception` does not catch `KeyboardInterrupt` or `SystemExit`, which would end the whole run.
- Batch.Outputs: a failed save is modelled as writing nothing. The library may leave a partial file behind.
- Batch.Outputs: files are identified by their exact path string. On file systems that ignore case or normalise Unicode (the defaults on macOS and Windows), `out/X.webp` from `X.jpg` and `out/x.webp` from `x.png` are one file. Those file systems are not modelled.
- Batch.LastWriteWins: holds only where a path string is a file and a failed save leaves the file untouched. A later case-variant path such as `out/X.webp`, or a later save to the same path that fails midway and leaves a partial file, would replace the image it names.
- Batch.UnwrittenPathKept: makes the same two assumptions. A converted save to a case-variant of `p`, or a failed save to `p` that leaves a partial file, would change the file at `p`.
- Batch.SameStemLaterWins: makes the same two assumptions. `NoLaterWrite` compares exact path strings and counts only converted saves, so a later case-variant name such as `X.jpeg`, or a later save that fails midway, is not seen.
- The default argument `quality=70` (main.py:4) is not modelled: every run takes its quality explicitly in `Config`.
- Python allows any object as `quality`. The model uses an integer, and the code does not clamp or validate it.
- Recursive traversal, downscaling, aspect-ratio rules, output-path containment checks and directory mirroring are absent from main.py. They are therefore not part of this model.
