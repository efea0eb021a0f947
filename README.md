# Gallery image compressor, modelled in Dafny

The script `scripts/compress_gallery_images.py` makes web-sized JPEG
derivatives from the large originals of two photo galleries, `erps` and
`erbts`. In each gallery directory (`images/erps`, `images/erbts`) it walks
the sorted entries. For each regular file whose name matches the gallery
pattern `^<gallery>(\d+)_orig\.(JPG|jpg)$` (case-insensitive), it writes
`<gallery><digits>.jpg` next to it. That output has its longer edge brought
down to 1920 pixels when it is larger, and it is re-encoded at JPEG quality
85. `main` processes the erps gallery first and the erbts gallery second. It
then prints either a summary of everything it wrote or a "nothing found"
message.

The project has four modules:

- `Wrappers` (`wrappers.dfy`): the `Option` type returned by a match.
- `Dimensions` (`dimensions.dfy`): the target-size rule of `resize_and_save`.
  `TargetSize` computes it. `ObeysRule` states it declaratively: keep a size
  that fits; otherwise the longer edge becomes 1920, with a square counting as
  landscape, and the other edge is the truncated proportional value. Two
  lemmas prove that `TargetSize` is the one and only size that obeys the rule.
- `Names` (`names.dfy`): the source-name patterns as a small parser,
  `MatchSource`, which returns the captured digit run. `Recognises` states the
  pattern declaratively. `MatchSourceExactly` proves the parser and that
  statement agree in both directions. There are lemmas for the round trip,
  for digits being kept verbatim, and for the fact that an output name is
  never matched as a source.
- `Compressor` (`compressor.dfy`): the galleries and Pillow's observable effect
  on one file (`Derive`). It also holds the loop of `process_dir`: the method
  `ProcessDir` is proved against the function `ProcessAll`, and lemmas say
  what `ProcessAll` produces. Finally it holds `main` as the method `Run`,
  which aggregates both galleries and builds the report.

Assumptions the model makes explicit:

- The short edge is computed as `int(h * 1920 / w)`: a float division, then
  truncation. The model uses floor division on naturals instead. The two
  agree whenever `edge * 1920 < 2^53`. In that range a non-integer quotient
  `a / b` lies at least `1 / b` away from every integer, which is more than
  the rounding error of one float division, so truncation gives the same
  integer. Every image size a decoder produces is in that range.
- A directory is represented by the list of its entries in the order
  `sorted(directory.iterdir())` returns them. An entry is either a regular
  file or something else (`is_file()` is false). A regular file carries what
  Pillow makes of it: its colour mode and size, or `Broken` when Pillow raises
  at any step of `resize_and_save`. A `Broken` source aborts the whole run
  after the outputs already written (`Aborted` / `Crashed`). A `Broken` file
  that is not a source is never opened, so it is skipped.
- A gallery directory that does not exist is `None`, and it is skipped.
- Paths are strings relative to the project root (`images/erps/erps001.jpg`).

Two consequences of the code that the model keeps:

- The short edge is truncated, not rounded (line 44 and line 46). So the
  aspect ratio is kept only up to that truncation, and the short edge can
  even become 0 (`ExtremeStripCollapses`).
- Only the modes `RGBA` and `P` are converted to `RGB` (line 37). Other
  modes that carry transparency, such as `LA` or `PA`, reach the encoder
  unchanged (`JpegMode`).

## Model

| member | source | states |
|---|---|---|
| `Dimensions.TargetSize` | scripts/compress_gallery_images.py:39-46 | both output edges are at most 1920; neither output edge exceeds its input edge; the orientation (landscape / portrait) is kept |
| `Dimensions.TargetSizeObeysRule` | scripts/compress_gallery_images.py:40-46 | a size that fits is unchanged; otherwise the longer edge (width on ties) is 1920 and the other edge `x` satisfies `x * long <= other * 1920 < (x + 1) * long` (truncated proportional value, not rounding) |
| `Dimensions.RuleDeterminesSize` | scripts/compress_gallery_images.py:40-46 | any size obeying the rule equals the computed one, so the rule determines the output size |
| `Dimensions.LongerEdgeBecomesMax` | scripts/compress_gallery_images.py:43-46 | an image over the limit gets its longer edge set to exactly 1920, with ties going to the width |
| `Dimensions.TargetSizeIdempotent` | scripts/compress_gallery_images.py:40-42 | applying the rule to a derivative's size leaves it unchanged: resizing a derivative again would leave its size unchanged |
| `Dimensions.TargetSizeCommutesWithSwap` | scripts/compress_gallery_images.py:43-46 | exchanging width and height of the input exchanges them in the output |
| `Dimensions.SquareBecomesMaxSquare` | scripts/compress_gallery_images.py:43-44 | a square larger than the limit becomes exactly 1920 x 1920 |
| `Dimensions.PortraitOriginal` | scripts/compress_gallery_images.py:43-46 | the documented 3168 x 4752 original becomes 1280 x 1920 |
| `Dimensions.SmallImageKeepsSize` | scripts/compress_gallery_images.py:40-42 | an 800 x 600 image keeps its size (re-encode only) |
| `Dimensions.ExtremeStripCollapses` | scripts/compress_gallery_images.py:43-44 | a 10000 x 1 image gets a target height of 0: the code does not guard the short edge |
| `Names.DigitRun` | scripts/compress_gallery_images.py:31 | the length returned is that of the maximal leading run of digits (`\d+` consumption) |
| `Names.MatchSource` | scripts/compress_gallery_images.py:56-58 | a successful match captures a non-empty string of digits |
| `Names.MatchSourceExactly` | scripts/compress_gallery_images.py:31-32 | a name matches with captured digits `d` iff it is `<stem>d_orig.jpg` up to ASCII case, optionally followed by one final newline (`$`), with `d` a non-empty digit string kept verbatim |
| `Names.MatchSourceSound` | scripts/compress_gallery_images.py:56-59 | every accepted name has the pattern's shape, with the captured digits at their place in it |
| `Names.MatchSourceComplete` | scripts/compress_gallery_images.py:31-32 | every name of the pattern's shape is accepted, and its digit run is captured verbatim |
| `Names.CaptureIsUnique` | scripts/compress_gallery_images.py:59 | a matching name determines its captured digit string |
| `Names.MatchSourceName` | scripts/compress_gallery_images.py:31-32 | round trip: `<stem><digits>_orig.jpg` matches and captures exactly `digits` |
| `Names.OutName` | scripts/compress_gallery_images.py:60 | the output name is the prefix, then the captured digits verbatim, then `.jpg`; with `OutNameInjective`, `OutNameNotSource` and `DocumentedExample` it is injective in the digits, never a source name, and `erps001_orig.JPG` gives `erps001.jpg` |
| `Names.OutNameNotSource` | scripts/compress_gallery_images.py:60 | an output name `<stem><digits>.jpg` never matches the same stem's source pattern |
| `Names.OutNameInjective` | scripts/compress_gallery_images.py:59-60 | distinct captured digit strings give distinct output names, so leading zeros are kept |
| `Names.DocumentedExample` | scripts/compress_gallery_images.py:6-7 | `erps001_orig.JPG` captures `001` and yields `erps001.jpg` |
| `Names.NameWithoutMarkerIgnored` | scripts/compress_gallery_images.py:31 | `erps001.jpg`, which has no `_orig` marker, does not match |
| `Names.CaseVariantsShareOutput` | scripts/compress_gallery_images.py:31 | `ERPS001_ORIG.JPG` and `erps001_orig.JPG` both capture `001`, so they write the same output file |
| `Names.TrailingNewlineAccepted` | scripts/compress_gallery_images.py:32 | `$` also accepts a name ending in one newline: `erbts7_orig.jpg\n` captures `7` |
| `Compressor.JpegMode` | scripts/compress_gallery_images.py:37-38 | the saved mode is never `RGBA` or `P`; `RGBA` and `P` become exactly `RGB`; every other mode is kept unchanged |
| `Compressor.Derive` | scripts/compress_gallery_images.py:35-48 | a derivative's size obeys the resize rule (`ObeysRule`: kept when it fits, otherwise longer edge 1920 and truncated proportional short edge), so it fits the limit; an `RGBA` or `P` original is saved as `RGB` and any other mode is kept |
| `Compressor.PathOf` | scripts/compress_gallery_images.py:61 | the output path is the gallery directory, one `/`, then the output name, each part recoverable from the path |
| `Compressor.Sources` | scripts/compress_gallery_images.py:53-58 | the selected entries are all matching regular files, and there are no more of them than entries |
| `Compressor.ProcessDir` | scripts/compress_gallery_images.py:51-64 | the loop's result (the `saved` list, or an abort on a file Pillow rejects) equals `ProcessAll` of the sorted listing |
| `Compressor.AbortPersists` | scripts/compress_gallery_images.py:62 | once a source aborts the loop, later entries change nothing |
| `Compressor.ProcessAllFinished` | scripts/compress_gallery_images.py:53-64 | a directory completes iff every source can be processed; then there is exactly one derivative per source, in listing order, and none for other entries |
| `Compressor.ProcessAllAborted` | scripts/compress_gallery_images.py:62 | an abort names a source that Pillow rejects, and the outputs written before it are exactly those of the listing up to that source |
| `Compressor.SourcesMembership` | scripts/compress_gallery_images.py:54-58 | an entry is selected iff it is in the listing, is a regular file and matches |
| `Compressor.SourcesAppend` | scripts/compress_gallery_images.py:53-58 | selecting from a concatenated listing concatenates the selections |
| `Compressor.ProcessAllOnlySources` | scripts/compress_gallery_images.py:54-58 | the result depends only on the selected sources: non-files and non-matching names are skipped |
| `Compressor.SourcesKeepOrder` | scripts/compress_gallery_images.py:53 | the sources of a sorted listing are taken in sorted order |
| `Compressor.DerivativeNotSource` | scripts/compress_gallery_images.py:59-60 | no derivative's name matches either gallery's source pattern, so outputs are never reprocessed |
| `Compressor.GalleriesDisjoint` | scripts/compress_gallery_images.py:31-32 | no name matches both gallery patterns |
| `Compressor.Summarise` | scripts/compress_gallery_images.py:74-79 | the report is "nothing found" iff nothing was saved; otherwise it gives the count, max edge 1920, quality 85 and every output path in order |
| `Compressor.Run` | scripts/compress_gallery_images.py:67-77 | an abort in erps stops the run; otherwise erps outputs come before erbts outputs, a missing directory contributes nothing, and the report summarises the concatenation |
| `Compressor.NothingFoundIffNoSources` | scripts/compress_gallery_images.py:69-76 | the run completes with nothing saved iff neither existing gallery directory holds a source |
| `Compressor.PortraitScenario` | scripts/compress_gallery_images.py:6-8 | a gallery holding a 3168 x 4752 `erps001_orig.JPG` yields `images/erps/erps001.jpg` at 1280 x 1920 |
| `Compressor.SmallImageScenario` | scripts/compress_gallery_images.py:37-42 | an 800 x 600 palette image `erbts007_orig.jpg` yields `erbts007.jpg` in RGB at 800 x 600 |
| `Compressor.NothingFoundScenario` | scripts/compress_gallery_images.py:70-73 | a missing directory, and a directory with no matching regular file, contribute nothing |

## Left out

- Pillow is not modelled: decoding, the colour conversion itself, Lanczos resampling, and JPEG encoding with `quality=85, optimize=True` are foreign library code. The model keeps only the derivative's mode and size, and a `Broken` outcome for a file on which Pillow raises. In particular, whether Pillow accepts a target edge of 0 or a mode such as `LA` is not modelled beyond `Broken`.
- The filesystem is not modelled: `iterdir`, `is_file`, `is_dir`, `os.chdir`, resolving `PROJECT_ROOT`, and `relative_to`. Listings are inputs; paths are strings relative to the project root.
- `sorted` is a built-in. The model takes the listing already sorted, and `NameBefore` only states the code-point order it uses.
- Writing to disk is not modelled. When two case variants of one source name are both present (`CaseVariantsShareOutput`), the later file overwrites the earlier output on disk. The model records both entries in the `saved` list, as the script does.
- The per-file size in KiB (`stat().st_size // 1024`) printed by the report is I/O and is left out. The report keeps the count, the two constants and the paths.
- The `ImportError` guard (exit status 1 when Pillow is missing) is start-up I/O and is left out.
- The float semantics of `h * MAX_EDGE / w` are not modelled. The model uses floor division, exact for sizes below the bound stated above.
- Unicode in the patterns is not modelled. `\d` on a `str` also accepts non-ASCII decimal digits, and `re.I` also equates a few non-ASCII letters with ASCII ones (for example U+017F, long s, with `s`). The model folds ASCII letters only and accepts ASCII digits only.
- `js/menu.js` is not part of this model: it is browser event handling for the site's menu, with no logic beyond the DOM.
