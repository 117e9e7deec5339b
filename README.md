# Sprite cutter: a Dafny model of the grid slicer

Sprite cutter cuts one image into a `rows x cols` grid of sprites. Each cell can
lose a fixed margin on every side. Each sprite is encoded as PNG or JPEG, and all
of them can be downloaded as one zip archive. This project models the parts with
real logic and proves what they promise:

- `ImageProcessing` (`utils/imageProcessing.ts`) covers `sliceImage` and the entry
  layout of `downloadAsZip`. `SliceImage` is the nested grid loop. It keeps the id
  counter and the `promises` array, then filters and sorts. It is proved equal to
  the specification function `Slices`. `DownloadAsZip` is the `forEach` over the
  slices, proved equal to `FolderEntries`.
- `SliceProperties` holds what the slicer guarantees: which cells become slices, the
  crop formulas, ids, file names, order, tiling, trim behaviour, and the archive
  round trip.
- `PresetInput` (`components/PresetInput.tsx`) is the numeric field as a class with
  the prop `value`, the `textValue` state, the `lastEmitted` ref and a log of
  `onChange` calls. There is one method per event.
- `App` (`App.tsx`) covers the preview slice size, the trim inputs, the
  initial/reset configuration and the download action.
- `Text` models JavaScript's integer `toString()` and `parseInt`. `Types` holds the
  records of `types.ts`.

Modelling choices:

- Crop arithmetic uses Dafny `real`, which is exact. JavaScript's division is
  floating point, so this is an idealisation. The image width and height are
  naturals, as `img.width` and `img.height` are.
- The canvas step (`getContext`, `drawImage`, `toBlob`) is an oracle. `Encoder`
  maps a grid cell to the encoded bytes, or to `None` when the context or the
  blob is null. Within one call, the crop and format are fixed by the cell and
  the configuration. So an oracle keyed by cell is as general as one keyed by crop.
- The promises resolve to the cell outcomes in push order. The concurrent
  completion order is not modelled, because `Promise.all` restores push order.
- The sort `(a, b) => a.id - b.id` is modelled as a stable insertion sort by id.
  `SortByIdSorts` proves it orders by id and keeps the same elements.
  `SlicesAreFiltered` shows it finds the filtered list already sorted.
- `SlicedImage` also records the grid row, column and crop it came from. This makes
  those facts available to the proofs. The `url` field is left out.
- The archive is a map from entry path (`slices/{fileName}`) to bytes. JSZip's
  `file` replaces an entry of the same name, which the map does too.

## Model

| member | source | states |
|---|---|---|
| `ImageProcessing.SliceImage` | utils/imageProcessing.ts:14-82 | the grid loop plus filter and sort yields exactly `Slices(width, height, config, encode)`; rows < 1 or cols < 1 gives the empty list |
| `ImageProcessing.CellPromise` | utils/imageProcessing.ts:33-70 | one loop iteration: the crop `(x*w/cols + trimX, y*h/rows + trimY, w/cols - 2*trimX, h/rows - 2*trimY)`, null when that crop is degenerate or the encode fails, otherwise the slice with id `y*cols + x` and name `slice_{y}_{x}.{ext}` |
| `ImageProcessing.DownloadAsZip` | utils/imageProcessing.ts:89-97 | the archive keeps the requested name, and its entries are the images added in turn under `slices/` |
| `SliceProperties.EmptyGridNoSlices` | utils/imageProcessing.ts:16-19 | fewer than one row or column gives no slices |
| `SliceProperties.SliceFields` | utils/imageProcessing.ts:26-38 | every slice has id `row*cols + col` in `[0, rows*cols)`, the crop of its cell with positive width and height, the encoder's bytes for that cell, and the name `slice_{row}_{col}` plus extension |
| `SliceProperties.SliceMembership` | utils/imageProcessing.ts:31-76 | a slice is in the result if and only if it lies in the grid and is the non-null outcome of its own cell |
| `SliceProperties.SliceComesFromCell` | utils/imageProcessing.ts:31-76 | a slice in the result lies in the grid and is the outcome of its own cell |
| `SliceProperties.CellReachesSlices` | utils/imageProcessing.ts:31-76 | the non-null outcome of a grid cell is in the result |
| `SliceProperties.OutcomeFields` | utils/imageProcessing.ts:33-66 | a cell's non-null outcome has id `row*cols + col`, the cell's crop with positive width and height, the encoder's bytes for the cell, and the cell's file name |
| `SliceProperties.CellKept` | utils/imageProcessing.ts:40-66 | cell (y, x) yields a slice if and only if its crop is not degenerate and its encode succeeds |
| `SliceProperties.OverTrimDropsAll` | utils/imageProcessing.ts:37-43 | `2*trimX >= w/cols` or `2*trimY >= h/rows` drops every cell |
| `SliceProperties.TrimMonotone` | utils/imageProcessing.ts:35-43 | a larger trim never enlarges a crop, so a crop non-degenerate under the larger trim is non-degenerate under the smaller one; for the same per-cell encode outcomes, every cell kept under the larger trim is kept, no smaller, under the smaller one |
| `SliceProperties.CropInsideImage` | utils/imageProcessing.ts:26-38 | with non-negative trims, every crop lies within `[0, width] x [0, height]` |
| `SliceProperties.CropsTile` | utils/imageProcessing.ts:26-38 | without trim, column 0 starts at 0, column x ends where x+1 starts, and the last column ends at the width; the same holds for rows and the height |
| `SliceProperties.FullGrid` | utils/imageProcessing.ts:26-77 | without trim, with all encodes succeeding and a positive image size, there are exactly `rows*cols` slices, and the i-th is cell `(i / cols, i % cols)` with id i |
| `SliceProperties.SlicesInOrder` | utils/imageProcessing.ts:75-77 | ids strictly ascend, which is row-major grid order, and all file names are distinct |
| `SliceProperties.SlicesAreFiltered` | utils/imageProcessing.ts:75-77 | the sort finds the filtered results already in id order, so the result equals the filtered results in push order |
| `SliceProperties.KeepSomeMembers` | utils/imageProcessing.ts:76 | the filter keeps exactly the non-null results |
| `SliceProperties.KeepSomeAscending` | utils/imageProcessing.ts:76 | when the non-null results have strictly ascending ids, the filtered list does too |
| `ImageProcessing.SortByIdSorts` | utils/imageProcessing.ts:77 | the sort orders by id and permutes its input |
| `SliceProperties.SortByIdOfSorted` | utils/imageProcessing.ts:77 | sorting a list already ordered by id leaves it unchanged |
| `SliceProperties.FileNameRoundTrip` | utils/imageProcessing.ts:55-63 | a file name parses back to its row, column and format |
| `SliceProperties.FileNameInjective` | utils/imageProcessing.ts:63 | distinct cells never share a file name |
| `SliceProperties.FormatNaming` | utils/imageProcessing.ts:54-55 | png gives `.png` and `image/png`, jpg gives `.jpg` and `image/jpeg` |
| `SliceProperties.ExampleScenario` | utils/imageProcessing.ts:26-77 | a 400x200 image cut 2x2 without trim gives slice_0_0.png, slice_0_1.png, slice_1_0.png and slice_1_1.png, each 200x100 |
| `SliceProperties.ExampleOverTrim` | utils/imageProcessing.ts:37-43 | the same image with trimX = 120 gives no slice |
| `SliceProperties.EntriesComeFromImages` | utils/imageProcessing.ts:91-97 | every archive entry is `slices/{fileName}` of some image |
| `SliceProperties.ArchiveRoundTrip` | utils/imageProcessing.ts:91-97 | with distinct file names, the archive has one entry per image at `slices/{fileName}`, holding that image's bytes |
| `SliceProperties.SliceArchive` | utils/imageProcessing.ts:89-97 | the archive of a slicing result has as many entries as slices, each holding its slice's bytes |
| `Text.ParseIntOfIntToString` | components/PresetInput.tsx:67 | `parseInt(n.toString())` is `n` for every integer |
| `Text.IntToStringInjective` | components/PresetInput.tsx:67 | distinct integers print differently |
| `Text.ParseIntNoDigits` | components/PresetInput.tsx:46-49 | the empty text, and any text without digits, parses as NaN |
| `Text.NatToString` | utils/imageProcessing.ts:63 | the decimal form of a natural is non-empty, all digits and free of leading zeros |
| `PresetInput.ClampOnBlur` | components/PresetInput.tsx:57-65 | NaN or a number below min gives min; otherwise a number above max gives max; an in-range number is kept; when min <= max the result lies in [min, max] |
| `PresetInput.BlurIdempotent` | components/PresetInput.tsx:57-67 | blurring a field that has just been blurred settles on the same number |
| `PresetInput.PresetInput.constructor` | components/PresetInput.tsx:13-29 | first render: the text is the prop in decimal, `lastEmitted` is the prop, nothing emitted |
| `PresetInput.PresetInput.WithDefaults` | components/PresetInput.tsx:12-28 | first render without `min`, `max` or `presets` props: bounds 1 and 50, presets 2, 3, 4, 6, 8; the text is the prop in decimal, `lastEmitted` is the prop, nothing emitted |
| `PresetInput.PresetInput.ReceiveProp` | components/PresetInput.tsx:31-39 | a changed prop that differs from `lastEmitted` resyncs text and `lastEmitted`; otherwise both are untouched |
| `PresetInput.PresetInput.HandleChange` | components/PresetInput.tsx:41-55 | the text follows the input; empty or unparsable text emits nothing; parsable text is emitted unclamped and recorded in `lastEmitted` |
| `PresetInput.PresetInput.HandleBlur` | components/PresetInput.tsx:57-73 | the text becomes the clamped number and `lastEmitted` equals it; it is emitted if and only if it differs from the previous `lastEmitted`; it lies in [min, max] |
| `PresetInput.PresetInput.ClickPreset` | components/PresetInput.tsx:101-106 | text, `lastEmitted` and the emitted number all become the preset |
| `App.BlurredGridOk` | App.tsx:317-328 | the rows and cols fields keep the default bounds, so once both are blurred they lie in [1, 50] and the grid is one the slicer accepts |
| `App.FloorOfQuotient` | App.tsx:82-83 | `Math.floor(x / d)` of a natural x is integer division |
| `App.SliceWidth` | App.tsx:82 | `floor(width / cols)`, 0 without an image, within one pixel below the exact piece width |
| `App.SliceHeight` | App.tsx:83 | `floor(height / rows)`, 0 without an image, within one pixel below the exact piece height |
| `App.TrimmedSize` | App.tsx:85-86 | never negative; 0 exactly when `2*trim >= slice`; otherwise `slice - 2*trim` |
| `App.TrimmedSizeMonotone` | App.tsx:85 | a larger trim never shows a larger size |
| `App.PreviewPositiveMeansNotDegenerate` | App.tsx:82-86 | a positive trimmed preview size means no cell's crop is degenerate, and each crop is at least that large (an encode can still fail) |
| `App.PreviewZeroButCropPositive` | App.tsx:82-85 | the converse fails: a 5x5 image in two columns with trimX = 1 shows 0 while the crop is 0.5 wide |
| `App.TrimFromText` | App.tsx:348 | the stored trim is never negative; NaN gives 0; a positive number is kept |
| `App.TrimFromTextOfStored` | App.tsx:347-348 | reading back the displayed trim stores the same trim |
| `App.ZipName` | App.tsx:79 | `sliced_{name}.zip` for a known file, `sprites.zip` otherwise; always ends in `.zip` |
| `App.AppState.constructor` | App.tsx:14-24 | initial state: no image, no slices, rows = cols = 2, png, no trim |
| `App.AppState.HandleReset` | App.tsx:69-75 | reset gives exactly the initial state |
| `App.AppState.SetCols` | App.tsx:320 | only `cols` changes |
| `App.AppState.SetRows` | App.tsx:326 | only `rows` changes |
| `App.AppState.SetTrimX` | App.tsx:348 | only `trimX` changes, to the clamped parse; trims stay non-negative |
| `App.AppState.SetTrimY` | App.tsx:361 | only `trimY` changes, to the clamped parse; trims stay non-negative |
| `App.AppState.SetFormat` | App.tsx:374-384 | only `format` changes |
| `App.AppState.HandleDownload` | App.tsx:77-80 | no archive if and only if there are no slices; otherwise the archive has the chosen name and the `slices/{fileName}` entries of the slices, one per slice when the names are distinct (see `SliceArchive`) |

## Left out

- Image decoding is not modelled: `new Image`, `crossOrigin`, `onload` and `onerror`. The model starts from the loaded image's width and height. A decode error makes `img.onerror` reject the promise, and App only logs it; that path is not modelled.
- The canvas is not modelled: `drawImage`, `toBlob` with quality 0.9, and `URL.createObjectURL`. The encoder is an oracle per cell, and a slice carries no `url`.
- Canvas truncation of fractional `canvas.width` and `canvas.height` is not modelled, and neither is floating-point rounding. Crops are exact reals.
- The asynchronous scheduling is not modelled: the promises, `Promise.all`, and the unreachable `catch` around it. The results are a sequence in push order.
- Compression is not modelled: `JSZip.generateAsync` and the FileSaver call. The archive is its name and its entries. The directory entry JSZip records for the folder itself is not modelled.
- `DownloadAsZip`: the `if (!folder) return;` guard is not modelled, because a folder with a fixed name is always created.
- JavaScript numbers are modelled as unbounded integers. `!rows` in the guard (NaN) has no counterpart.
- `Text.ParseInt`: it skips only space, tab, LF and CR before the number. It does not read a `0x` prefix, and it does not lose precision on long digit strings.
- App's debounced re-slicing effect is not modelled: the timers, the `setSlicedImages` of its result, and the processing flag.
- `handleImageSelect` and its `FileReader` are not modelled, and neither is any rendering: the grid overlay, language, help dialog and the `disabled` state of the buttons.
- `App.SliceWidth`: requires `cols >= 1`. While the field is being typed, cols can be 0 or negative (typed text is emitted unclamped). The source then divides by zero (Infinity) or shows a negative floor, with an `actualWidth` of 0.
- `App.SliceHeight`: requires `rows >= 1`, for the same reason: rows can be 0 or negative while typing.
- `PresetInput.PresetInput.ClickPreset`: requires the number to be one of the presets, because only preset buttons call it.
- The highlight of the preset equal to `value` is rendering only.
- `PresetInput.PresetInput.ReceiveProp`: the effect is modelled as running only when the prop changed between renders, as React's dependency list makes it. The mount run is a no-op, because `lastEmitted` starts equal to the prop.
- For an empty list `DownloadAsZip` gives an archive with no entries; `handleDownload` never calls `downloadAsZip` with no slices.
- `SliceProperties.TrimMonotone`: the kept-cell half holds for the same per-cell encode outcomes under both trims. The real canvas step depends on the crop size, so a larger canvas could fail to encode where a smaller one succeeds; only the crop half holds unconditionally.
