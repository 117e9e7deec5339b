/**
 * The slicing engine of utils/imageProcessing.ts: `sliceImage` cuts an image into a
 * rows x cols grid of trimmed crops and encodes each, and `downloadAsZip` packs the
 * slices into one archive under the folder `slices`.
 */
module ImageProcessing {
  import opened Wrappers
  import opened Text
  import opened Types

  /**
   * The canvas step for the cell at (row, col): draw the crop and encode it. `None`
   * stands for a null 2D context or a null blob from `toBlob`.
   */
  type Encoder = (nat, nat) -> Option<Blob>

  const SlicesFolder := "slices"
  const DefaultZipName := "sprites.zip"

  /** The grid sizes `sliceImage` accepts; anything else yields no slices. */
  predicate GridOk(config: SliceConfig) { config.rows >= 1 && config.cols >= 1 }

  function Extension(format: OutputFormat): string {
    if format == Png then ".png" else ".jpg"
  }

  /** The MIME type handed to the encoder. */
  function MimeType(format: OutputFormat): string {
    if format == Png then "image/png" else "image/jpeg"
  }

  /** `slice_${y}_${x}${ext}`. */
  function FileName(row: nat, col: nat, format: OutputFormat): string {
    "slice_" + NatToString(row) + "_" + NatToString(col) + Extension(format)
  }

  /** Reads grid cell and format back from a slice file name. */
  function ParseFileName(name: string): Option<(nat, nat, OutputFormat)> {
    if |name| < 6 || name[..6] != "slice_" then None
    else
      var a := name[6..];
      var k := DigitRun(a);
      if k == 0 || k == |a| || a[k] != '_' then None
      else
        var b := a[k + 1..];
        var m := DigitRun(b);
        if m == 0 then None
        else if b[m..] == ".png" then Some((DigitsValue(a[..k]), DigitsValue(b[..m]), Png))
        else if b[m..] == ".jpg" then Some((DigitsValue(a[..k]), DigitsValue(b[..m]), Jpg))
        else None
  }

  /** `img.width / cols`: exact, not truncated. */
  function PieceWidth(width: nat, config: SliceConfig): real
    requires config.cols >= 1
  {
    width as real / config.cols as real
  }

  /** `img.height / rows`. */
  function PieceHeight(height: nat, config: SliceConfig): real
    requires config.rows >= 1
  {
    height as real / config.rows as real
  }

  /** The source rectangle (sX, sY, sW, sH) of the cell at (row, col). */
  function CropRect(width: nat, height: nat, config: SliceConfig, row: nat, col: nat): Rect
    requires GridOk(config)
  {
    var pieceWidth := PieceWidth(width, config);
    var pieceHeight := PieceHeight(height, config);
    Rect(col as real * pieceWidth + config.trimX as real,
         row as real * pieceHeight + config.trimY as real,
         pieceWidth - config.trimX as real * 2.0,
         pieceHeight - config.trimY as real * 2.0)
  }

  /** A crop the trim has consumed: it is skipped, not encoded. */
  predicate Degenerate(crop: Rect) { crop.w <= 0.0 || crop.h <= 0.0 }

  /** What the promise of cell (row, col) resolves to. */
  function CellOutcome(width: nat, height: nat, config: SliceConfig, encode: Encoder, row: nat, col: nat): Option<SlicedImage>
    requires GridOk(config)
  {
    var crop := CropRect(width, height, config, row, col);
    if Degenerate(crop) then None
    else match encode(row, col)
      case None => None
      case Some(blob) =>
        Some(SlicedImage(row * config.cols + col, row, col, crop, blob, FileName(row, col, config.format)))
  }

  /** The `promises` array once the grid loop is done: cell outcomes in row-major order. */
  function CellOutcomes(width: nat, height: nat, config: SliceConfig, encode: Encoder): seq<Option<SlicedImage>>
    requires GridOk(config)
  {
    seq(config.rows * config.cols,
        i requires 0 <= i < config.rows * config.cols =>
          CellOutcome(width, height, config, encode, i / config.cols, i % config.cols))
  }

  /** `results.filter(i => i !== null)`. */
  function KeepSome(s: seq<Option<SlicedImage>>): (r: seq<SlicedImage>)
    ensures |r| <= |s|
  {
    if s == [] then [] else (if s[0].Some? then [s[0].value] else []) + KeepSome(s[1..])
  }

  predicate SortedById(s: seq<SlicedImage>) {
    forall i, j :: 0 <= i < j < |s| ==> s[i].id <= s[j].id
  }

  predicate StrictlyAscendingIds(s: seq<SlicedImage>) {
    forall i, j :: 0 <= i < j < |s| ==> s[i].id < s[j].id
  }

  /** Puts `x` before the first element whose id is not smaller. */
  function InsertById(x: SlicedImage, s: seq<SlicedImage>): seq<SlicedImage> {
    if s == [] || x.id <= s[0].id then [x] + s else [s[0]] + InsertById(x, s[1..])
  }

  /** `sort((a, b) => a.id - b.id)`: a stable insertion sort by id. */
  function SortById(s: seq<SlicedImage>): seq<SlicedImage> {
    if s == [] then [] else InsertById(s[0], SortById(s[1..]))
  }

  lemma {:induction false} InsertByIdPermutes(x: SlicedImage, s: seq<SlicedImage>)
    ensures multiset(InsertById(x, s)) == multiset(s) + multiset{x}
  {
    if s != [] && x.id > s[0].id {
      InsertByIdPermutes(x, s[1..]);
      assert s == [s[0]] + s[1..];
    }
  }

  lemma SortedTail(s: seq<SlicedImage>)
    requires SortedById(s) && s != []
    ensures SortedById(s[1..])
    ensures forall y :: y in multiset(s[1..]) ==> s[0].id <= y.id
  {
    var tail := s[1..];
    forall i, j | 0 <= i < j < |tail| ensures tail[i].id <= tail[j].id {
      assert tail[i] == s[i + 1] && tail[j] == s[j + 1];
    }
    forall y | y in multiset(tail) ensures s[0].id <= y.id {
      var k :| 0 <= k < |tail| && tail[k] == y;
      assert s[k + 1] == y;
    }
  }

  /** Putting an element no larger than all the others in front keeps the order. */
  lemma ConsSorted(h: SlicedImage, t: seq<SlicedImage>)
    requires SortedById(t)
    requires forall i :: 0 <= i < |t| ==> h.id <= t[i].id
    ensures SortedById([h] + t)
  {
    var r := [h] + t;
    forall i, j | 0 <= i < j < |r| ensures r[i].id <= r[j].id {
      assert r[j] == t[j - 1];
      if i > 0 {
        assert r[i] == t[i - 1];
      }
    }
  }

  lemma {:induction false} InsertByIdSorted(x: SlicedImage, s: seq<SlicedImage>)
    requires SortedById(s)
    ensures SortedById(InsertById(x, s))
  {
    if s == [] || x.id <= s[0].id {
      ConsSorted(x, s);
    } else {
      var tail := s[1..];
      SortedTail(s);
      InsertByIdSorted(x, tail);
      InsertByIdPermutes(x, tail);
      var rest := InsertById(x, tail);
      forall i | 0 <= i < |rest| ensures s[0].id <= rest[i].id {
        assert rest[i] in multiset(rest);
      }
      ConsSorted(s[0], rest);
    }
  }

  /** The sort yields an ordering by id of the same elements. */
  lemma {:induction false} SortByIdSorts(s: seq<SlicedImage>)
    ensures SortedById(SortById(s))
    ensures multiset(SortById(s)) == multiset(s)
  {
    if s != [] {
      SortByIdSorts(s[1..]);
      InsertByIdSorted(s[0], SortById(s[1..]));
      InsertByIdPermutes(s[0], SortById(s[1..]));
      assert s == [s[0]] + s[1..];
    }
  }

  /** The value `sliceImage` resolves with. */
  function Slices(width: nat, height: nat, config: SliceConfig, encode: Encoder): seq<SlicedImage> {
    if !GridOk(config) then [] else SortById(KeepSome(CellOutcomes(width, height, config, encode)))
  }

  lemma MulNonNegative(a: int, b: int)
    requires a >= 0 && b >= 0
    ensures a * b >= 0
  {
  }

  /** Cell (y, x) is the entry `y * cols + x` of a row-major enumeration. */
  lemma RowMajor(y: nat, x: nat, cols: int)
    requires 0 <= x < cols
    ensures (y * cols + x) / cols == y && (y * cols + x) % cols == x
  {
    var i := y * cols + x;
    var q, r := i / cols, i % cols;
    assert i == q * cols + r;
    assert (q - y) * cols == q * cols - y * cols;
    if q > y {
      MulNonNegative(q - y - 1, cols);
    } else if q < y {
      MulNonNegative(y - q - 1, cols);
    }
  }

  /** Row-major positions in a grid of `rows` rows fall below `rows * cols`. */
  lemma RowMajorBound(y: nat, x: nat, rows: int, cols: int)
    requires y < rows && 0 <= x < cols
    ensures y * cols + x < rows * cols
  {
    MulNonNegative(rows - y - 1, cols);
    assert (rows - y - 1) * cols == rows * cols - y * cols - cols;
  }

  /** Entry `y * cols + x` of the enumeration is the outcome of cell (y, x). */
  lemma CellOutcomeAt(width: nat, height: nat, config: SliceConfig, encode: Encoder, y: nat, x: nat)
    requires GridOk(config) && y < config.rows && x < config.cols
    ensures y * config.cols + x < |CellOutcomes(width, height, config, encode)|
    ensures CellOutcomes(width, height, config, encode)[y * config.cols + x]
         == CellOutcome(width, height, config, encode, y, x)
  {
    MulNonNegative(y, config.cols);
    RowMajor(y, x, config.cols);
    RowMajorBound(y, x, config.rows, config.cols);
  }

  /**
   * The body of the grid loop for cell (y, x): the crop rectangle, the skip of a
   * degenerate crop, and the encode of a surviving one.
   */
  method CellPromise(width: nat, height: nat, config: SliceConfig, encode: Encoder,
                     pieceWidth: real, pieceHeight: real, currentId: int, y: nat, x: nat)
    returns (outcome: Option<SlicedImage>)
    requires GridOk(config)
    requires pieceWidth == PieceWidth(width, config) && pieceHeight == PieceHeight(height, config)
    requires currentId == y * config.cols + x
    ensures outcome == CellOutcome(width, height, config, encode, y, x)
  {
    var sX := x as real * pieceWidth + config.trimX as real;
    var sY := y as real * pieceHeight + config.trimY as real;
    var sW := pieceWidth - config.trimX as real * 2.0;
    var sH := pieceHeight - config.trimY as real * 2.0;
    ghost var crop := CropRect(width, height, config, y, x);
    assert crop == Rect(sX, sY, sW, sH);

    if sW <= 0.0 || sH <= 0.0 {
      assert Degenerate(crop);
      return None;
    }

    var encoded := encode(y, x);
    if encoded.Some? {
      outcome := Some(SlicedImage(currentId, y, x, Rect(sX, sY, sW, sH), encoded.value, FileName(y, x, config.format)));
    } else {
      outcome := None;
    }
  }

  /**
   * `sliceImage` once the image has loaded: the nested grid loop with its id
   * counter and `promises` array, then the filter and the sort.
   */
  method SliceImage(width: nat, height: nat, config: SliceConfig, encode: Encoder) returns (slices: seq<SlicedImage>)
    ensures slices == Slices(width, height, config, encode)
    ensures !GridOk(config) ==> slices == []
  {
    if config.rows < 1 || config.cols < 1 {
      return [];
    }
    var pieceWidth := width as real / config.cols as real;
    var pieceHeight := height as real / config.rows as real;
    var promises: seq<Option<SlicedImage>> := [];
    var idCounter := 0;
    ghost var outcomes := CellOutcomes(width, height, config, encode);
    for y := 0 to config.rows
      invariant idCounter == y * config.cols
      invariant idCounter <= |outcomes|
      invariant promises == outcomes[..idCounter]
    {
      for x := 0 to config.cols
        invariant idCounter == y * config.cols + x
        invariant idCounter <= |outcomes|
        invariant promises == outcomes[..idCounter]
      {
        var currentId := idCounter;
        idCounter := idCounter + 1;
        var p := CellPromise(width, height, config, encode, pieceWidth, pieceHeight, currentId, y, x);
        CellOutcomeAt(width, height, config, encode, y, x);
        assert outcomes[..idCounter] == outcomes[..currentId] + [p];
        promises := promises + [p];
      }
      assert (y + 1) * config.cols == y * config.cols + config.cols;
    }
    assert promises == outcomes;
    var validImages := KeepSome(promises);
    slices := SortById(validImages);
  }

  /** A generated archive: the name it is saved under and its entries by path. */
  datatype ZipArchive = ZipArchive(name: string, entries: map<string, Blob>)

  /** Where `folder.file(name, ...)` puts a file inside the archive. */
  function EntryPath(fileName: string): string {
    SlicesFolder + "/" + fileName
  }

  /**
   * The entries after `folder.file(img.fileName, img.blob)` for each image in turn;
   * a later file of the same name replaces an earlier one.
   */
  function FolderEntries(images: seq<SlicedImage>): map<string, Blob> {
    if images == [] then map[]
    else
      var last := images[|images| - 1];
      FolderEntries(images[..|images| - 1])[EntryPath(last.fileName) := last.blob]
  }

  /** `downloadAsZip`: the `forEach` over the images, then the archive handed to the saver. */
  method DownloadAsZip(images: seq<SlicedImage>, zipName: string) returns (zip: ZipArchive)
    ensures zip.name == zipName
    ensures zip.entries == FolderEntries(images)
  {
    var entries: map<string, Blob> := map[];
    for i := 0 to |images|
      invariant entries == FolderEntries(images[..i])
    {
      assert images[..i + 1][..i] == images[..i];
      entries := entries[EntryPath(images[i].fileName) := images[i].blob];
    }
    assert images[..|images|] == images;
    zip := ZipArchive(zipName, entries);
  }
}
