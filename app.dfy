/**
 * The state logic of App.tsx: the slice size shown in the preview, the trim inputs,
 * the initial and reset configuration, and the download action.
 */
module App {
  import opened Wrappers
  import opened Text
  import opened Types
  import opened ImageProcessing
  import PresetInput

  datatype ImageSize = ImageSize(width: nat, height: nat)

  /** The configuration the app starts with and returns to on reset. */
  const InitialConfig := SliceConfig(2, 2, Png, 0, 0)

  /** `Math.floor(x / d)` on a natural `x` is integer division. */
  lemma FloorOfQuotient(x: nat, d: int)
    requires d >= 1
    ensures (x as real / d as real).Floor == x / d
  {
    var q, r := x / d, x % d;
    assert x == q * d + r;
    assert x as real == q as real * d as real + r as real;
    assert x as real / d as real == q as real + r as real / d as real;
    assert 0.0 <= r as real / d as real < 1.0;
  }

  /** `sliceWidth`: the whole pixels of one grid column, or 0 before an image is loaded. */
  function SliceWidth(imageSize: Option<ImageSize>, config: SliceConfig): (w: int)
    requires config.cols >= 1
    ensures imageSize.None? ==> w == 0
    ensures imageSize.Some? ==> w == imageSize.value.width / config.cols
    ensures imageSize.Some? ==>
      w as real <= PieceWidth(imageSize.value.width, config) < w as real + 1.0
  {
    match imageSize
    case None => 0
    case Some(size) =>
      FloorOfQuotient(size.width, config.cols);
      (size.width as real / config.cols as real).Floor
  }

  /** `sliceHeight`: the whole pixels of one grid row, or 0 before an image is loaded. */
  function SliceHeight(imageSize: Option<ImageSize>, config: SliceConfig): (h: int)
    requires config.rows >= 1
    ensures imageSize.None? ==> h == 0
    ensures imageSize.Some? ==> h == imageSize.value.height / config.rows
    ensures imageSize.Some? ==>
      h as real <= PieceHeight(imageSize.value.height, config) < h as real + 1.0
  {
    match imageSize
    case None => 0
    case Some(size) =>
      FloorOfQuotient(size.height, config.rows);
      (size.height as real / config.rows as real).Floor
  }

  /** `actualWidth` / `actualHeight`: a slice side after trimming both ends, never below 0. */
  function TrimmedSize(slice: int, trim: int): (s: int)
    ensures s >= 0
    ensures s == 0 <==> trim * 2 >= slice
    ensures s > 0 ==> s == slice - trim * 2
  {
    if slice - trim * 2 > 0 then slice - trim * 2 else 0
  }

  /** Trimming more never shows a larger size. */
  lemma TrimmedSizeMonotone(slice: int, t1: int, t2: int)
    requires t1 <= t2
    ensures TrimmedSize(slice, t2) <= TrimmedSize(slice, t1)
  {
  }

  /**
   * When the preview shows a positive trimmed size, no cell's crop is degenerate, so
   * the slicer skips none for its size (an encode can still fail): the exact crop
   * is at least as large as the whole-pixel figure shown.
   */
  lemma PreviewPositiveMeansNotDegenerate(size: ImageSize, config: SliceConfig, y: nat, x: nat)
    requires GridOk(config)
    requires TrimmedSize(SliceWidth(Some(size), config), config.trimX) > 0
    requires TrimmedSize(SliceHeight(Some(size), config), config.trimY) > 0
    ensures var c := CropRect(size.width, size.height, config, y, x);
      c.w >= TrimmedSize(SliceWidth(Some(size), config), config.trimX) as real &&
      c.h >= TrimmedSize(SliceHeight(Some(size), config), config.trimY) as real &&
      !Degenerate(c)
  {
  }

  /**
   * The converse fails: a 5x5 image cut into two columns with a horizontal trim of 1
   * shows a trimmed width of 0, while the slicer's crop is half a pixel wide.
   */
  lemma PreviewZeroButCropPositive()
    ensures var config := SliceConfig(1, 2, Png, 1, 0);
      TrimmedSize(SliceWidth(Some(ImageSize(5, 5)), config), config.trimX) == 0 &&
      CropRect(5, 5, config, 0, 0).w == 0.5
  {
  }

  /**
   * The rows and cols fields use the default bounds [1, 50]: whatever was typed,
   * once both fields are blurred the grid is one the slicer accepts.
   */
  lemma BlurredGridOk(config: SliceConfig, rowsText: string, colsText: string)
    ensures var rows := PresetInput.ClampOnBlur(ParseInt(rowsText), PresetInput.DefaultMin, PresetInput.DefaultMax);
      var cols := PresetInput.ClampOnBlur(ParseInt(colsText), PresetInput.DefaultMin, PresetInput.DefaultMax);
      GridOk(config.(rows := rows, cols := cols)) && rows <= 50 && cols <= 50
  {
  }

  /** A trim input stores `Math.max(0, parseInt(text) || 0)`. */
  function TrimFromText(text: string): (t: int)
    ensures t >= 0
    ensures ParseInt(text).None? ==> t == 0
    ensures ParseInt(text).Some? ==> t == if ParseInt(text).value > 0 then ParseInt(text).value else 0
  {
    var parsedOrZero := match ParseInt(text) case None => 0 case Some(n) => n;
    if parsedOrZero > 0 then parsedOrZero else 0
  }

  /** The trim field shows `config.trimX`; reading that text back stores the same trim. */
  lemma TrimFromTextOfStored(trim: nat)
    ensures TrimFromText(IntToString(trim)) == trim
  {
    ParseIntOfIntToString(trim);
  }

  /** The archive name `handleDownload` passes: from the uploaded file's name, or the default. */
  function ZipName(imageFile: Option<string>): (name: string)
    ensures imageFile.None? ==> name == DefaultZipName
    ensures imageFile.Some? ==> name == "sliced_" + imageFile.value + ".zip"
    ensures |name| >= 4 && name[|name| - 4..] == ".zip"
  {
    match imageFile
    case None => DefaultZipName
    case Some(fileName) => "sliced_" + fileName + ".zip"
  }

  /** The application state that App.tsx holds in `useState`. */
  class AppState {
    /** Name of the uploaded file. */
    var imageFile: Option<string>
    var imageSrc: Option<string>
    var imageSize: Option<ImageSize>
    var config: SliceConfig
    var slicedImages: seq<SlicedImage>

    /** The trim settings are never negative. */
    ghost predicate Valid()
      reads this
    {
      config.trimX >= 0 && config.trimY >= 0
    }

    /** The initial state: no image, no slices, a 2x2 PNG grid without trim. */
    constructor ()
      ensures Valid()
      ensures imageFile == None && imageSrc == None && imageSize == None
      ensures config == InitialConfig && slicedImages == []
    {
      imageFile, imageSrc, imageSize := None, None, None;
      slicedImages := [];
      config := SliceConfig(2, 2, Png, 0, 0);
    }

    /** `handleReset`: back to the initial state. */
    method HandleReset()
      modifies this
      ensures Valid()
      ensures imageFile == None && imageSrc == None && imageSize == None
      ensures config == InitialConfig && slicedImages == []
    {
      imageFile := None;
      imageSrc := None;
      imageSize := None;
      slicedImages := [];
      config := SliceConfig(2, 2, Png, 0, 0);
    }

    /** The columns input's `onChange`. */
    method SetCols(val: int)
      requires Valid()
      modifies this`config
      ensures Valid() && config == old(config).(cols := val)
    {
      config := config.(cols := val);
    }

    /** The rows input's `onChange`. */
    method SetRows(val: int)
      requires Valid()
      modifies this`config
      ensures Valid() && config == old(config).(rows := val)
    {
      config := config.(rows := val);
    }

    /** The horizontal trim input's `onChange`. */
    method SetTrimX(text: string)
      requires Valid()
      modifies this`config
      ensures Valid() && config == old(config).(trimX := TrimFromText(text))
    {
      config := config.(trimX := TrimFromText(text));
    }

    /** The vertical trim input's `onChange`. */
    method SetTrimY(text: string)
      requires Valid()
      modifies this`config
      ensures Valid() && config == old(config).(trimY := TrimFromText(text))
    {
      config := config.(trimY := TrimFromText(text));
    }

    /** The PNG and JPG buttons. */
    method SetFormat(format: OutputFormat)
      requires Valid()
      modifies this`config
      ensures Valid() && config == old(config).(format := format)
    {
      config := config.(format := format);
    }

    /**
     * `handleDownload`: nothing without slices; otherwise the slices go into an
     * archive named after the uploaded file, or `sprites.zip`.
     */
    method HandleDownload() returns (zip: Option<ZipArchive>)
      ensures slicedImages == [] <==> zip == None
      ensures zip.Some? ==> zip.value.name == ZipName(imageFile) &&
                            zip.value.entries == FolderEntries(slicedImages)
    {
      if |slicedImages| == 0 {
        return None;
      }
      var archive := DownloadAsZip(slicedImages, ZipName(imageFile));
      zip := Some(archive);
    }
  }
}
