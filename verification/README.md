# Batch image compressor: a verified model of its core

The page lets a user drop or pick up to 100 files, keeps the ones whose
declared type is an image, recompresses them one after another to a chosen
format and quality, and offers the results as one archive,
`compressed_images.zip`. This project models the parts of `script.js` that
can be stated without a browser:

- **Intake** (`handleFiles`): a selection of more than 100 entries is
  rejected before any filtering; otherwise `images` becomes the image
  entries of the selection in their original order. When none is an image,
  the handler returns early: `images` is emptied and nothing else on the
  page is reset.
- **Output names** (the `name` expression in `compressImage`): the file
  name up to its first `.`, then `.`, then the text of the format between
  its first and second `/`. JavaScript's `split` and the `undefined` that an
  out-of-range index yields are modelled as written.
- **The batch loop** (the compress-all click handler): one result is
  appended per image, in input order. The processed counter and the progress
  bar move by one image per step and end at the number of images. The
  download button is then bound to the results.
- **Archive entries** (`downloadAll`): the ordered `(name, bytes)` pairs
  handed to the archive library.
- **Unit selection** (`formatFileSize`): `0` is `0 Bytes`. Otherwise the
  unit index is the largest `i` with `1024^i <= bytes`, and the amount is
  `bytes / 1024^i`. A size of 1024³ bytes or more indexes past the
  three-entry unit table.

Modules: `Intake` (intake.dfy), `Naming` (naming.dfy), `FileSize`
(file_size.dfy), `Compressor` (compressor.dfy), `Archive` (archive.dfy) and
`Batch` (batch.dfy). `Batch` holds the page state as a value (`PageState`)
and says what each handler does to it (`AfterIntake`, `AfterCompressAll`).
It also holds the class `Page`, whose fields the handlers update in place;
its methods are proved to end in exactly those states.

Two behaviours of the code that are easy to misread:

- JPEG output is named `photo.jpeg`, not `photo.jpg`: the extension is the
  MIME subtype as written (`Naming.JpegExtension`, `Naming.PhotoToJpeg`).
- A selection with no images is not a no-op. It empties `images` and leaves
  the old controls on screen, so the compress button then yields an empty
  archive (`Batch.EmptyIntakeLeavesControls`).

## Model

| member | source | states |
|---|---|---|
| `Intake.TooMany` | script.js:48 | the selection is counted before filtering, so an accepted selection never yields more than 100 images |
| `Intake.IsImage` | script.js:53 | a file is an image exactly when its declared type is `image/` followed by anything (`startsWith`) |
| `Intake.FilterImages` | script.js:53 | the kept list is no longer than the selection; every kept entry is an image from the selection; every image in the selection is kept |
| `Intake.FilterImagesIsSubsequence` | script.js:53 | the kept entries keep their original relative order (the result is a subsequence of the selection) |
| `Intake.FilterImagesAppend` | script.js:53 | filtering a concatenation is the concatenation of the filtered parts, so the filter decides entry by entry |
| `Intake.FilterImagesSingle` | script.js:53 | a single entry is kept exactly when its declared type starts with `image/` |
| `Intake.FilterImagesEmpty` | script.js:53-54 | the filtered list is empty exactly when no entry is an image (the early-return case) |
| `Intake.FilterImagesKeepsImages` | script.js:53 | a selection of images only passes through unchanged |
| `Intake.FilterImagesIdempotent` | script.js:53 | filtering twice equals filtering once |
| `Naming.Split` | script.js:125 | `split` yields at least one part and no part contains the separator |
| `Naming.JoinSplit` | script.js:125 | joining the parts with the separator gives back the original text |
| `Naming.SplitJoin` | script.js:125 | splitting a join of separator-free parts gives back the parts |
| `Naming.IndexOf` | script.js:125 | the index is the first occurrence of the character, or the length when there is none |
| `Naming.SplitByIndex` | script.js:125 | the first part is the text before the first separator; the rest is the split of the text after it |
| `Naming.FirstPartIsBaseName` | script.js:125 | `split('.')[0]` is the base name |
| `Naming.SecondPartIsExtension` | script.js:125 | `split('/')[1]`, as concatenated, is the extension, `undefined` included |
| `Naming.BaseName` | script.js:125 | the base is a prefix of the name without a `.`; it is the whole name or stops at the first `.` |
| `Naming.Extension` | script.js:125 | the extension is the text after the format's first `/` up to the next `/` or the end; it is `undefined` when there is no `/` |
| `Naming.DeriveName` | script.js:125 | the name expression as written; its partner `Naming.DeriveNameParts` proves it equal to base name, `.`, extension |
| `Naming.DeriveNameParts` | script.js:125 | the name expression equals base name, `.`, extension |
| `Naming.NoDotKeepsWholeName` | script.js:125 | a name without a `.` is kept whole |
| `Naming.FirstDotWins` | script.js:125 | only the text before the first `.` survives, however many dots follow |
| `Naming.LeadingDotEmptyBase` | script.js:125 | a name starting with `.` gets an empty base |
| `Naming.FormatExtension` | script.js:125 | a `kind/subtype` format with no further `/` gives `subtype` |
| `Naming.JpegExtension` | script.js:125 | `image/jpeg` gives the extension `jpeg`, not `jpg` |
| `Naming.PngExtension` | script.js:125 | `image/png` gives `png` |
| `Naming.WebpExtension` | script.js:125 | `image/webp` gives `webp` |
| `Naming.DeriveNameOf` | script.js:125 | `base.rest` with a dot-free base, compressed to `kind/subtype`, is named `base.subtype` |
| `Naming.PhotoToJpeg` | script.js:125 | `photo.png` to `image/jpeg` is named `photo.jpeg` |
| `Naming.SeveralDotsToWebp` | script.js:125 | `a.b.c` to `image/webp` is named `a.webp` |
| `Naming.DeriveNameCollides` | script.js:125 | two different inputs (`photo.png`, `photo.gif`) get the same output name |
| `FileSize.UnitIndex` | script.js:88 | for `bytes > 0` the index `i` satisfies `1024^i <= bytes < 1024^(i+1)` |
| `FileSize.UnitIndexUnique` | script.js:88 | any `i` with those bounds is the unit index, so it is the largest `i` with `1024^i <= bytes` |
| `FileSize.UnitIndexInTable` | script.js:87-89 | the index is inside the three-entry table exactly when `bytes < 1024^3` |
| `FileSize.UnitName` | script.js:87-89 | below 1024³ bytes the unit is the table entry at the index; from 1024³ on it is `undefined` |
| `FileSize.ScaledAmount` | script.js:89 | the amount is `bytes / 1024^i` and lies in `[1, 1024)` |
| `FileSize.ScaledAmountBounds` | script.js:89 | `bytes / 1024^i` lies in `[1, 1024)` when `i` is the unit index |
| `FileSize.FormatFileSize` | script.js:84-90 | `0` prints `0 Bytes`; otherwise the amount is `bytes / 1024^i`; below 1024³ the unit comes from the table and the amount lies in `[1, 1024)`; from 1024³ on the unit is `undefined` |
| `FileSize.FormatKilobytes` | script.js:84-90 | 1536 bytes is 1.5 KB |
| `FileSize.FormatMegabytes` | script.js:84-90 | 1048576 bytes is 1 MB |
| `FileSize.GibibyteIsUndefined` | script.js:87-89 | 1073741824 bytes selects index 3 and prints the unit `undefined` |
| `FileSize.ClampedUnitIndex` | script.js:87-89 | the corrected index is always inside the table; it is exact below MB and stays at MB above |
| `FileSize.FormatFileSizeClamped` | script.js:87-89 | the corrected text always uses a unit from the table: the one at the clamped index, so every size from 1024² bytes on, 1024³ and beyond included, is shown in MB; the amount is `bytes / 1024^i` and at least 1 |
| `FileSize.ClampedAgreesBelowGibibyte` | script.js:87-89 | below 1024³ bytes the corrected text equals the source's |
| `Compressor.CompressImage` | script.js:123-126 | the value `compressImage` resolves with; its partner `Compressor.CompressImageName` states its bytes and its name |
| `Compressor.CompressImageName` | script.js:123-126 | the result carries the encoder's bytes for that file, format and quality, named base name, `.`, extension |
| `Compressor.CompressEach` | script.js:96-100 | the batch yields exactly one result per image |
| `Compressor.CompressEachAt` | script.js:96-100 | the batch yields one result per image, and result `k` is the compression of image `k` |
| `Compressor.CompressEachAppend` | script.js:98-100 | each step appends the next image's result to the results so far |
| `Compressor.SameNamesOnRerun` | script.js:98-100 | re-running a batch with the same images and format yields the same names in the same number, whatever the encoder's bytes and the quality |
| `Archive.Entries` | script.js:137-139 | one `zip.file` call per result |
| `Archive.EntriesAt` | script.js:137-139 | one archive entry per result, entry `k` carrying result `k`'s name and bytes |
| `Archive.DownloadAll` | script.js:135-144 | the download is named `compressed_images.zip` and its entries are the results' names and bytes in order |
| `Archive.BatchArchive` | script.js:137-139 | the archive of a batch has one entry per image, in input order, each named from that image's name and the format |
| `Batch.AfterIntake` | script.js:47-63 | more than 100 entries is rejected (counted before filtering) and changes nothing; otherwise `images` is the filtered selection; with no images only `images` changes; on acceptance the controls are shown, the total is set, and the counter, bar and download button are reset |
| `Batch.AfterCompressAll` | script.js:92-108 | the download holds one result per image, in order; the counter and bar end at the number of images (untouched when there are none); the download button is shown; the other page state is unchanged |
| `Batch.Consistent` | script.js:47-63 | the page invariant: at most 100 images, all images, the total matching a non-empty `images`, the processed counter and the bar within their totals |
| `Batch.InitialConsistent` | script.js:14 | the starting page is consistent |
| `Batch.IntakeKeepsConsistent` | script.js:47-63 | every intake keeps at most 100 images, all images, with a matching total and counters within their totals |
| `Batch.CompressAllKeepsConsistent` | script.js:92-108 | a compress-all run keeps the same page invariant; the processed count never exceeds the total |
| `Batch.AcceptedImagesInOrder` | script.js:53 | after an accepted intake `images` is exactly the selection's image entries, as a subsequence in original order |
| `Batch.EmptyIntakeLeavesControls` | script.js:53-54 | an intake without images leaves the controls up; compressing then offers an empty archive |
| `Batch.Page.constructor` | script.js:14 | the page starts with no images and nothing shown |
| `Batch.Page.HandleFiles` | script.js:47-63 | the handler's new fields and outcome are exactly `AfterIntake` of the old fields; the invariant is kept |
| `Batch.Page.CompressAll` | script.js:92-108 | the handler's new fields are exactly `AfterCompressAll` of the old ones; the bar reads `k+1` of `n` after image `k`, so it only grows and reaches `n` of `n` |
| `Batch.Page.RunBatch` | script.js:95-104 | the loop's results are the compressions of `images` in order; `processed` rises by one per image, stays at most the image count and ends there |

## Findings

| source | as written | input that shows it | evidently intended | confidence | as-written member | corrected member |
|---|---|---|---|---|---|---|
| script.js:87-89 | the unit table has three entries, but the unit index grows without bound | a file of 1073741824 bytes (1 GiB) gets index 3 and is labelled `1 undefined` | every size is labelled with a unit from the table, so sizes past MB are shown in MB | medium, not executed | `FileSize.GibibyteIsUndefined` | `FileSize.FormatFileSizeClamped` |

The preview tiles, which call `formatFileSize`, are outside the model. So the
corrected definition is proved about (`FileSize.ClampedAgreesBelowGibibyte`)
and nothing else in the model uses either definition.

## Left out

- DOM event wiring, drag styling and the quality label (script.js:1-45): UI plumbing with no state the core reads.
- The preview renderer `displayImages` (script.js:65-82): only the list handed to it is kept (`previewed`). Its file reads and HTML tiles are browser work, and their completion order is up to the browser.
- Decoding, canvas drawing and `canvas.toBlob` (script.js:110-124, 126-133): foreign browser work. They are one opaque `Encoder` from the file's bytes, the format and the quality to the output bytes. A `null` blob from a failed encode is just another opaque value.
- The archive library and the download link (script.js:136, 141-146): only the name and the ordered entries are modelled. What the library does with two entries of the same name is not modelled. `Naming.DeriveNameCollides` shows that such names occur.
- Quality: the model passes the slider's integer percentage to the encoder in place of `parseInt(...) / 100` (script.js:93).
- The page's starting state comes from index.html, which is not part of this model. `Batch.Initial` takes it as no images, hidden controls, zero counters and an empty bar.
- FileSize.FormatFileSize: the amount is the exact quotient. Its `toFixed(2)`/`parseFloat` rounding and the number-to-text step (script.js:89) are floating point and are left out. The unit index is the exact integer one, not `Math.floor(Math.log(bytes) / Math.log(1024))` (script.js:88); that the floating-point formula never rounds across a boundary is not proved.
- The percentage text of the progress bar (script.js:103) is a float. The bar is modelled as the pair "done of total" (`Fill`).
- Batch.Page.RunBatch, Batch.Page.CompressAll, Batch.AfterCompressAll: these hold only for batches in which every image decodes. `compressImage` sets `onload` handlers only (script.js:113, 115). A file whose type starts with `image/` but that the browser cannot read or decode never settles its promise. The `await` (script.js:99) then never returns, the counter stays at the images done so far, and the download button (script.js:106-107) never appears. The `Encoder` always returns, so the model has no such stall.
- Batch.Page.CompressAll: the handler awaits each image. Another drop or pick during a run could replace `images` midway. The model runs the loop without interruption and does not capture that interleaving.
- The `alert` on rejection (script.js:49): a UI side effect. The rejection itself is the `Rejected` outcome.
