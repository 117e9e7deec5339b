/**
 * What `sliceImage` and `downloadAsZip` guarantee: which cells become slices, the
 * crop geometry, ids and names, the order of the result, and the archive layout.
 */
module SliceProperties {
  import opened Wrappers
  import opened Text
  import opened Types
  import opened ImageProcessing

  predicate DistinctFileNames(images: seq<SlicedImage>) {
    forall i, j :: 0 <= i < j < |images| ==> images[i].fileName != images[j].fileName
  }

  // ----- The filter and the sort -----

  lemma {:induction false} KeepSomeMembers(s: seq<Option<SlicedImage>>, v: SlicedImage)
    ensures v in KeepSome(s) <==> Some(v) in s
  {
    if s != [] {
      KeepSomeMembers(s[1..], v);
      assert s == [s[0]] + s[1..];
    }
  }

  /** Strictly ascending ids among the non-null results stay strictly ascending after the filter. */
  lemma {:induction false} KeepSomeAscending(s: seq<Option<SlicedImage>>)
    requires forall i, j :: 0 <= i < j < |s| && s[i].Some? && s[j].Some? ==> s[i].value.id < s[j].value.id
    ensures StrictlyAscendingIds(KeepSome(s))
  {
    if s != [] {
      var tail := s[1..];
      forall i, j | 0 <= i < j < |tail| && tail[i].Some? && tail[j].Some?
        ensures tail[i].value.id < tail[j].value.id
      {
        assert tail[i] == s[i + 1] && tail[j] == s[j + 1];
      }
      KeepSomeAscending(tail);
      var t := KeepSome(tail);
      if s[0].Some? {
        var r := KeepSome(s);
        assert r == [s[0].value] + t;
        forall j | 0 < j < |r| ensures s[0].value.id < r[j].id {
          assert r[j] == t[j - 1];
          KeepSomeMembers(tail, t[j - 1]);
          var k :| 0 <= k < |tail| && tail[k] == Some(t[j - 1]);
          assert s[k + 1] == tail[k];
        }
        forall i, j | 0 <= i < j < |r| ensures r[i].id < r[j].id {
          if i > 0 {
            assert r[i] == t[i - 1] && r[j] == t[j - 1];
          }
        }
      } else {
        assert KeepSome(s) == t;
      }
    }
  }

  /** With no null among the results, the filter keeps every one of them. */
  lemma {:induction false} KeepSomeAllPresent(s: seq<Option<SlicedImage>>)
    requires forall i :: 0 <= i < |s| ==> s[i].Some?
    ensures |KeepSome(s)| == |s|
    ensures forall i :: 0 <= i < |s| ==> KeepSome(s)[i] == s[i].value
  {
    if s != [] {
      KeepSomeAllPresent(s[1..]);
      assert KeepSome(s) == [s[0].value] + KeepSome(s[1..]);
    }
  }

  /** Sorting a list already ordered by id changes nothing. */
  lemma {:induction false} SortByIdOfSorted(s: seq<SlicedImage>)
    requires SortedById(s)
    ensures SortById(s) == s
  {
    if s != [] {
      SortedTail(s);
      SortByIdOfSorted(s[1..]);
      assert s == [s[0]] + s[1..];
    }
  }

  // ----- Row-major arithmetic -----

  lemma RowOfIndex(k: int, rows: int, cols: int)
    requires 0 <= k < rows * cols && cols >= 1
    ensures 0 <= k / cols < rows && 0 <= k % cols < cols
  {
    if k / cols >= rows {
      MulNonNegative(k / cols - rows, cols);
    }
  }

  lemma DivModSplit(i: int, cols: int)
    requires cols >= 1
    ensures i == (i / cols) * cols + i % cols
  {
  }

  /** Comparing row-major positions compares rows first, then columns. */
  lemma RowMajorOrder(y1: nat, x1: nat, y2: nat, x2: nat, cols: int)
    requires x1 < cols && x2 < cols
    requires y1 * cols + x1 < y2 * cols + x2
    ensures y1 < y2 || (y1 == y2 && x1 < x2)
  {
    assert (y1 - y2) * cols == y1 * cols - y2 * cols;
    if y1 > y2 {
      MulNonNegative(y1 - y2 - 1, cols);
    }
  }

  // ----- The cells of the grid -----

  /** Entry `i` of the enumeration is cell (i / cols, i % cols) and carries id `i`. */
  lemma OutcomeIds(width: nat, height: nat, config: SliceConfig, encode: Encoder)
    requires GridOk(config)
    ensures forall i :: 0 <= i < |CellOutcomes(width, height, config, encode)| &&
                        CellOutcomes(width, height, config, encode)[i].Some? ==>
      var v := CellOutcomes(width, height, config, encode)[i].value;
      v.id == i && v.row == i / config.cols && v.col == i % config.cols
  {
    var s := CellOutcomes(width, height, config, encode);
    forall i | 0 <= i < |s| && s[i].Some?
      ensures s[i].value.id == i && s[i].value.row == i / config.cols && s[i].value.col == i % config.cols
    {
      var y, x := i / config.cols, i % config.cols;
      assert s[i] == CellOutcome(width, height, config, encode, y, x);
      DivModSplit(i, config.cols);
    }
  }

  /** The sort in `sliceImage` finds the slices already in id order. */
  lemma SlicesAreFiltered(width: nat, height: nat, config: SliceConfig, encode: Encoder)
    requires GridOk(config)
    ensures Slices(width, height, config, encode) == KeepSome(CellOutcomes(width, height, config, encode))
    ensures StrictlyAscendingIds(Slices(width, height, config, encode))
  {
    var s := CellOutcomes(width, height, config, encode);
    OutcomeIds(width, height, config, encode);
    KeepSomeAscending(s);
    SortByIdOfSorted(KeepSome(s));
  }

  /** Some entry of the enumeration is the outcome of cell (y, x). */
  lemma CellPosition(width: nat, height: nat, config: SliceConfig, encode: Encoder, y: nat, x: nat)
    returns (i: nat)
    requires GridOk(config) && y < config.rows && x < config.cols
    ensures i < |CellOutcomes(width, height, config, encode)|
    ensures CellOutcomes(width, height, config, encode)[i] == CellOutcome(width, height, config, encode, y, x)
  {
    CellOutcomeAt(width, height, config, encode, y, x);
    i := y * config.cols + x;
  }

  /** A slice in the result is the outcome of its own grid cell. */
  lemma SliceComesFromCell(width: nat, height: nat, config: SliceConfig, encode: Encoder, v: SlicedImage)
    requires GridOk(config) && v in Slices(width, height, config, encode)
    ensures v.row < config.rows && v.col < config.cols
    ensures CellOutcome(width, height, config, encode, v.row, v.col) == Some(v)
  {
    var s := CellOutcomes(width, height, config, encode);
    SlicesAreFiltered(width, height, config, encode);
    KeepSomeMembers(s, v);
    var k :| 0 <= k < |s| && s[k] == Some(v);
    OutcomeIds(width, height, config, encode);
    RowOfIndex(k, config.rows, config.cols);
    assert s[k] == CellOutcome(width, height, config, encode, k / config.cols, k % config.cols);
  }

  /** The outcome of a grid cell, when there is one, is in the result. */
  lemma CellReachesSlices(width: nat, height: nat, config: SliceConfig, encode: Encoder, v: SlicedImage)
    requires GridOk(config) && v.row < config.rows && v.col < config.cols
    requires CellOutcome(width, height, config, encode, v.row, v.col) == Some(v)
    ensures v in Slices(width, height, config, encode)
  {
    var s := CellOutcomes(width, height, config, encode);
    SlicesAreFiltered(width, height, config, encode);
    var i := CellPosition(width, height, config, encode, v.row, v.col);
    KeepSomeMembers(s, v);
  }

  /** A slice is in the result exactly when it is the outcome of its own grid cell. */
  lemma SliceMembership(width: nat, height: nat, config: SliceConfig, encode: Encoder, v: SlicedImage)
    requires GridOk(config)
    ensures v in Slices(width, height, config, encode) <==>
            v.row < config.rows && v.col < config.cols &&
            CellOutcome(width, height, config, encode, v.row, v.col) == Some(v)
  {
    if v in Slices(width, height, config, encode) {
      SliceComesFromCell(width, height, config, encode, v);
    }
    if v.row < config.rows && v.col < config.cols &&
       CellOutcome(width, height, config, encode, v.row, v.col) == Some(v) {
      CellReachesSlices(width, height, config, encode, v);
    }
  }

  /** What a cell's outcome holds, read off its definition. */
  lemma OutcomeFields(width: nat, height: nat, config: SliceConfig, encode: Encoder, v: SlicedImage)
    requires GridOk(config)
    requires CellOutcome(width, height, config, encode, v.row, v.col) == Some(v)
    ensures v.id == v.row * config.cols + v.col
    ensures v.crop == CropRect(width, height, config, v.row, v.col)
    ensures v.crop.w > 0.0 && v.crop.h > 0.0
    ensures encode(v.row, v.col) == Some(v.blob)
    ensures v.fileName == FileName(v.row, v.col, config.format)
  {
  }

  /**
   * Every slice carries id `row * cols + col` below `rows * cols`, the crop of its
   * cell (which the trim did not consume), the bytes the encoder produced for that
   * cell, and the name `slice_{row}_{col}` with the format's extension.
   */
  lemma SliceFields(width: nat, height: nat, config: SliceConfig, encode: Encoder, v: SlicedImage)
    requires v in Slices(width, height, config, encode)
    ensures GridOk(config) && v.row < config.rows && v.col < config.cols
    ensures v.id == v.row * config.cols + v.col && 0 <= v.id < config.rows * config.cols
    ensures v.crop == CropRect(width, height, config, v.row, v.col)
    ensures v.crop.w > 0.0 && v.crop.h > 0.0
    ensures encode(v.row, v.col) == Some(v.blob)
    ensures v.fileName == FileName(v.row, v.col, config.format)
  {
    assert GridOk(config);
    SliceComesFromCell(width, height, config, encode, v);
    OutcomeFields(width, height, config, encode, v);
    RowMajorBound(v.row, v.col, config.rows, config.cols);
    MulNonNegative(v.row, config.cols);
  }

  /** Cell (y, x) yields a slice exactly when its crop is not degenerate and its encode succeeds. */
  lemma CellKept(width: nat, height: nat, config: SliceConfig, encode: Encoder, y: nat, x: nat)
    requires GridOk(config) && y < config.rows && x < config.cols
    ensures (exists v :: v in Slices(width, height, config, encode) && v.row == y && v.col == x) <==>
            !Degenerate(CropRect(width, height, config, y, x)) && encode(y, x).Some?
  {
    var o := CellOutcome(width, height, config, encode, y, x);
    if o.Some? {
      SliceMembership(width, height, config, encode, o.value);
    }
    if v :| v in Slices(width, height, config, encode) && v.row == y && v.col == x {
      SliceMembership(width, height, config, encode, v);
    }
  }

  /**
   * The result lists slices in strictly ascending id order, which is row-major
   * grid order, and no two slices share a file name.
   */
  lemma SlicesInOrder(width: nat, height: nat, config: SliceConfig, encode: Encoder)
    ensures var r := Slices(width, height, config, encode);
      forall i, j :: 0 <= i < j < |r| ==>
        r[i].id < r[j].id &&
        (r[i].row < r[j].row || (r[i].row == r[j].row && r[i].col < r[j].col))
    ensures DistinctFileNames(Slices(width, height, config, encode))
  {
    var r := Slices(width, height, config, encode);
    if GridOk(config) {
      SlicesAreFiltered(width, height, config, encode);
      forall i, j | 0 <= i < j < |r|
        ensures r[i].row < r[j].row || (r[i].row == r[j].row && r[i].col < r[j].col)
      {
        SliceFields(width, height, config, encode, r[i]);
        SliceFields(width, height, config, encode, r[j]);
        RowMajorOrder(r[i].row, r[i].col, r[j].row, r[j].col, config.cols);
      }
      forall i, j | 0 <= i < j < |r| ensures r[i].fileName != r[j].fileName {
        SliceFields(width, height, config, encode, r[i]);
        SliceFields(width, height, config, encode, r[j]);
        if r[i].fileName == r[j].fileName {
          FileNameRoundTrip(r[i].row, r[i].col, config.format);
          FileNameRoundTrip(r[j].row, r[j].col, config.format);
        }
      }
    }
  }

  /** A grid with fewer than one row or column produces no slices at all. */
  lemma EmptyGridNoSlices(width: nat, height: nat, config: SliceConfig, encode: Encoder)
    requires config.rows < 1 || config.cols < 1
    ensures Slices(width, height, config, encode) == []
  {
  }

  // ----- File names -----

  /** A run of digits followed by a separator reads back as that run, then the rest. */
  lemma ReadField(digits: string, sep: char, rest: string)
    requires |digits| > 0 && AllDigits(digits) && !IsDigit(sep)
    ensures var a := digits + [sep] + rest;
      var k := DigitRun(a);
      k == |digits| && k < |a| && a[..k] == digits && a[k] == sep && a[k + 1..] == rest
  {
    var a := digits + [sep] + rest;
    assert a == digits + ([sep] + rest);
    DigitRunOfDigits(digits, [sep] + rest);
    assert a[..|digits|] == digits;
    assert a[|digits| + 1..] == rest;
  }

  /** The digits of the column, read back from `{col}{ext}`. */
  lemma ReadColumnPart(col: nat, format: OutputFormat)
    ensures var b := NatToString(col) + Extension(format);
      var m := DigitRun(b);
      m == |NatToString(col)| && m > 0 && b[..m] == NatToString(col) && b[m..] == Extension(format)
  {
    var B, E := NatToString(col), Extension(format);
    var tail := if format == Png then "png" else "jpg";
    assert E == ['.'] + tail;
    ReadField(B, '.', tail);
    assert B + E == B + ['.'] + tail;
  }

  /** The digits of the row, read back from `{row}_{col}{ext}`, with the rest after the `_`. */
  lemma ReadRowPart(row: nat, col: nat, format: OutputFormat)
    ensures var a := NatToString(row) + "_" + (NatToString(col) + Extension(format));
      var k := DigitRun(a);
      k == |NatToString(row)| && 0 < k < |a| && a[..k] == NatToString(row) && a[k] == '_' &&
      a[k + 1..] == NatToString(col) + Extension(format)
  {
    ReadField(NatToString(row), '_', NatToString(col) + Extension(format));
  }

  /** A slice file name is the prefix `slice_` followed by `{row}_{col}{ext}`. */
  lemma FileNameParts(row: nat, col: nat, format: OutputFormat)
    ensures var name := FileName(row, col, format);
      |name| >= 6 && name[..6] == "slice_" &&
      name[6..] == NatToString(row) + "_" + (NatToString(col) + Extension(format))
  {
    var a := NatToString(row) + "_" + (NatToString(col) + Extension(format));
    var name := FileName(row, col, format);
    assert name == "slice_" + a;
    assert name[..6] == "slice_";
    assert name[6..] == a;
  }

  /** The file name of a slice reads back as its grid cell and format. */
  lemma FileNameRoundTrip(row: nat, col: nat, format: OutputFormat)
    ensures ParseFileName(FileName(row, col, format)) == Some((row, col, format))
  {
    var A, B, E := NatToString(row), NatToString(col), Extension(format);
    var name := FileName(row, col, format);
    FileNameParts(row, col, format);
    var a := name[6..];
    ReadRowPart(row, col, format);
    var k := DigitRun(a);
    var b := a[k + 1..];
    ReadColumnPart(col, format);
    var m := DigitRun(b);
    DigitsValueOfNatToString(row);
    DigitsValueOfNatToString(col);
    assert DigitsValue(a[..k]) == row && DigitsValue(b[..m]) == col;
    if format == Jpg {
      assert ".jpg"[1] != ".png"[1];
    }
  }

  /** Distinct cells never share a file name. */
  lemma FileNameInjective(r1: nat, c1: nat, r2: nat, c2: nat, format: OutputFormat)
    requires FileName(r1, c1, format) == FileName(r2, c2, format)
    ensures r1 == r2 && c1 == c2
  {
    FileNameRoundTrip(r1, c1, format);
    FileNameRoundTrip(r2, c2, format);
  }

  /** PNG slices are named `.png` and encoded as image/png; JPG ones `.jpg` and image/jpeg. */
  lemma FormatNaming(format: OutputFormat)
    ensures format == Png ==> Extension(format) == ".png" && MimeType(format) == "image/png"
    ensures format == Jpg ==> Extension(format) == ".jpg" && MimeType(format) == "image/jpeg"
  {
  }

  // ----- Crop geometry -----

  /** With non-negative trims every crop lies inside the image. */
  lemma CropInsideImage(width: nat, height: nat, config: SliceConfig, y: nat, x: nat)
    requires GridOk(config) && y < config.rows && x < config.cols
    requires config.trimX >= 0 && config.trimY >= 0
    ensures var c := CropRect(width, height, config, y, x);
      0.0 <= c.x && c.x + c.w <= width as real && 0.0 <= c.y && c.y + c.h <= height as real
  {
    var pw, ph := PieceWidth(width, config), PieceHeight(height, config);
    assert pw >= 0.0 && ph >= 0.0;
    assert x as real * pw >= 0.0 && y as real * ph >= 0.0;
    assert config.cols as real * pw == width as real;
    assert config.rows as real * ph == height as real;
    assert (config.cols - x - 1) as real * pw >= 0.0;
    assert (config.rows - y - 1) as real * ph >= 0.0;
    assert config.cols as real * pw == x as real * pw + pw + (config.cols - x - 1) as real * pw;
    assert config.rows as real * ph == y as real * ph + ph + (config.rows - y - 1) as real * ph;
  }

  /**
   * Without trim the crops tile the image: the first column starts at 0, each
   * column ends where the next begins, and the last ends at the image width; the
   * same holds for rows and the height.
   */
  lemma CropsTile(width: nat, height: nat, config: SliceConfig, y: nat, x: nat)
    requires GridOk(config) && y < config.rows && x < config.cols
    requires config.trimX == 0 && config.trimY == 0
    ensures var c := CropRect(width, height, config, y, x);
      (x == 0 ==> c.x == 0.0) && (y == 0 ==> c.y == 0.0) &&
      (x + 1 < config.cols ==> c.x + c.w == CropRect(width, height, config, y, x + 1).x) &&
      (x + 1 == config.cols ==> c.x + c.w == width as real) &&
      (y + 1 < config.rows ==> c.y + c.h == CropRect(width, height, config, y + 1, x).y) &&
      (y + 1 == config.rows ==> c.y + c.h == height as real)
  {
    var pw, ph := PieceWidth(width, config), PieceHeight(height, config);
    assert config.cols as real * pw == width as real;
    assert config.rows as real * ph == height as real;
    assert (x + 1) as real * pw == x as real * pw + pw;
    assert (y + 1) as real * ph == y as real * ph + ph;
  }

  /**
   * Without trim and with every encode succeeding, a source image of positive size
   * gives exactly `rows * cols` slices, the i-th being cell (i / cols, i % cols).
   */
  lemma FullGrid(width: nat, height: nat, config: SliceConfig, encode: Encoder)
    requires GridOk(config) && config.trimX == 0 && config.trimY == 0
    requires width >= 1 && height >= 1
    requires forall y: nat, x: nat :: encode(y, x).Some?
    ensures |Slices(width, height, config, encode)| == config.rows * config.cols
    ensures forall i :: 0 <= i < |Slices(width, height, config, encode)| ==>
      var v := Slices(width, height, config, encode)[i];
      v.id == i && v.row == i / config.cols && v.col == i % config.cols
  {
    var s := CellOutcomes(width, height, config, encode);
    assert PieceWidth(width, config) > 0.0 && PieceHeight(height, config) > 0.0;
    forall i | 0 <= i < |s| ensures s[i].Some? {
      assert encode(i / config.cols, i % config.cols).Some?;
    }
    KeepSomeAllPresent(s);
    SlicesAreFiltered(width, height, config, encode);
    OutcomeIds(width, height, config, encode);
  }

  /**
   * A larger trim never enlarges a crop, so a crop it leaves non-degenerate is
   * non-degenerate under the smaller trim too. For the same per-cell encoder
   * outcomes, every cell kept under the larger trim is also kept, with a crop at
   * least as large, under the smaller one.
   */
  lemma TrimMonotone(width: nat, height: nat, c1: SliceConfig, c2: SliceConfig, encode: Encoder)
    requires GridOk(c1) && c2 == c1.(trimX := c2.trimX, trimY := c2.trimY)
    requires c1.trimX <= c2.trimX && c1.trimY <= c2.trimY
    ensures forall y: nat, x: nat ::
      CropRect(width, height, c2, y, x).w <= CropRect(width, height, c1, y, x).w &&
      CropRect(width, height, c2, y, x).h <= CropRect(width, height, c1, y, x).h
    ensures forall y: nat, x: nat :: !Degenerate(CropRect(width, height, c2, y, x)) ==>
      !Degenerate(CropRect(width, height, c1, y, x))
    ensures forall v2 :: v2 in Slices(width, height, c2, encode) ==>
      exists v1 :: v1 in Slices(width, height, c1, encode) && v1.row == v2.row && v1.col == v2.col &&
                   v1.crop.w >= v2.crop.w && v1.crop.h >= v2.crop.h
  {
    forall v2 | v2 in Slices(width, height, c2, encode)
      ensures exists v1 :: v1 in Slices(width, height, c1, encode) && v1.row == v2.row && v1.col == v2.col &&
                           v1.crop.w >= v2.crop.w && v1.crop.h >= v2.crop.h
    {
      SliceFields(width, height, c2, encode, v2);
      var o := CellOutcome(width, height, c1, encode, v2.row, v2.col);
      assert o.Some?;
      SliceMembership(width, height, c1, encode, o.value);
    }
  }

  /** A trim of at least half a cell in either direction leaves no slice at all. */
  lemma OverTrimDropsAll(width: nat, height: nat, config: SliceConfig, encode: Encoder)
    requires GridOk(config)
    requires config.trimX as real * 2.0 >= PieceWidth(width, config) ||
             config.trimY as real * 2.0 >= PieceHeight(height, config)
    ensures Slices(width, height, config, encode) == []
  {
    var r := Slices(width, height, config, encode);
    if r != [] {
      SliceFields(width, height, config, encode, r[0]);
    }
  }

  lemma SmallFileNames()
    ensures FileName(0, 0, Png) == "slice_0_0.png" && FileName(0, 1, Png) == "slice_0_1.png"
    ensures FileName(1, 0, Png) == "slice_1_0.png" && FileName(1, 1, Png) == "slice_1_1.png"
  {
    assert NatToString(0) == "0" && NatToString(1) == "1";
  }

  /**
   * A 400x200 image cut 2x2 without trim gives the four 200x100 slices
   * slice_0_0.png, slice_0_1.png, slice_1_0.png and slice_1_1.png, in that order.
   */
  lemma ExampleScenario(encode: Encoder)
    requires forall y: nat, x: nat :: encode(y, x).Some?
    ensures var r := Slices(400, 200, SliceConfig(2, 2, Png, 0, 0), encode);
      |r| == 4 &&
      r[0].fileName == "slice_0_0.png" && r[1].fileName == "slice_0_1.png" &&
      r[2].fileName == "slice_1_0.png" && r[3].fileName == "slice_1_1.png" &&
      forall i :: 0 <= i < 4 ==> r[i].crop.w == 200.0 && r[i].crop.h == 100.0
  {
    var config := SliceConfig(2, 2, Png, 0, 0);
    var r := Slices(400, 200, config, encode);
    FullGrid(400, 200, config, encode);
    SmallFileNames();
    forall i | 0 <= i < 4
      ensures r[i].crop.w == 200.0 && r[i].crop.h == 100.0
      ensures r[i].fileName == FileName(i / 2, i % 2, Png)
    {
      SliceFields(400, 200, config, encode, r[i]);
    }
  }

  /** The same image with a horizontal trim of 120, more than half of a 200-wide cell, gives no slice. */
  lemma ExampleOverTrim(encode: Encoder)
    ensures Slices(400, 200, SliceConfig(2, 2, Png, 120, 0), encode) == []
  {
    OverTrimDropsAll(400, 200, SliceConfig(2, 2, Png, 120, 0), encode);
  }

  // ----- The archive -----

  lemma EntryPathInjective(a: string, b: string)
    requires EntryPath(a) == EntryPath(b)
    ensures a == b
  {
    assert EntryPath(a)[|SlicesFolder| + 1..] == a;
    assert EntryPath(b)[|SlicesFolder| + 1..] == b;
  }

  /** Every archive entry sits in the `slices` folder under the name of some image. */
  lemma {:induction false} EntriesComeFromImages(images: seq<SlicedImage>)
    ensures forall p :: p in FolderEntries(images) ==>
      exists i :: 0 <= i < |images| && p == EntryPath(images[i].fileName)
  {
    if images != [] {
      var init := images[..|images| - 1];
      EntriesComeFromImages(init);
      forall p | p in FolderEntries(images)
        ensures exists i :: 0 <= i < |images| && p == EntryPath(images[i].fileName)
      {
        if p != EntryPath(images[|images| - 1].fileName) {
          assert p in FolderEntries(init);
          var i :| 0 <= i < |init| && p == EntryPath(init[i].fileName);
          assert init[i] == images[i];
        }
      }
    }
  }

  lemma DistinctPrefix(images: seq<SlicedImage>, n: nat)
    requires DistinctFileNames(images) && n <= |images|
    ensures DistinctFileNames(images[..n])
  {
    var init := images[..n];
    forall i, j | 0 <= i < j < |init| ensures init[i].fileName != init[j].fileName {
      assert init[i] == images[i] && init[j] == images[j];
    }
  }

  /** With distinct names, the last image's path is not yet taken by the earlier ones. */
  lemma LastPathFresh(images: seq<SlicedImage>)
    requires DistinctFileNames(images) && images != []
    ensures EntryPath(images[|images| - 1].fileName) !in FolderEntries(images[..|images| - 1])
  {
    var n := |images| - 1;
    var init := images[..n];
    EntriesComeFromImages(init);
    var path := EntryPath(images[n].fileName);
    if path in FolderEntries(init) {
      var i :| 0 <= i < |init| && path == EntryPath(init[i].fileName);
      EntryPathInjective(images[n].fileName, init[i].fileName);
    }
  }

  /**
   * When the file names are distinct, the archive has one entry per image, at
   * `slices/{fileName}`, holding exactly that image's bytes.
   */
  lemma {:induction false} ArchiveRoundTrip(images: seq<SlicedImage>)
    requires DistinctFileNames(images)
    ensures |FolderEntries(images).Keys| == |images|
    ensures forall i :: 0 <= i < |images| ==>
      EntryPath(images[i].fileName) in FolderEntries(images) &&
      FolderEntries(images)[EntryPath(images[i].fileName)] == images[i].blob
  {
    if images != [] {
      var n := |images| - 1;
      var init, last := images[..n], images[n];
      DistinctPrefix(images, n);
      ArchiveRoundTrip(init);
      LastPathFresh(images);
      var m := FolderEntries(init);
      var path := EntryPath(last.fileName);
      assert FolderEntries(images) == m[path := last.blob];
      assert FolderEntries(images).Keys == m.Keys + {path};
      forall i | 0 <= i < n
        ensures EntryPath(images[i].fileName) in FolderEntries(images) &&
                FolderEntries(images)[EntryPath(images[i].fileName)] == images[i].blob
      {
        assert images[i] == init[i];
        if EntryPath(images[i].fileName) == path {
          EntryPathInjective(images[i].fileName, last.fileName);
        }
      }
    }
  }

  /** The archive of a slicing result has one entry per slice, each holding its bytes. */
  lemma SliceArchive(width: nat, height: nat, config: SliceConfig, encode: Encoder)
    ensures var r := Slices(width, height, config, encode);
      |FolderEntries(r).Keys| == |r| &&
      forall i :: 0 <= i < |r| ==>
        EntryPath(r[i].fileName) in FolderEntries(r) && FolderEntries(r)[EntryPath(r[i].fileName)] == r[i].blob
  {
    var r := Slices(width, height, config, encode);
    SlicesInOrder(width, height, config, encode);
    ArchiveRoundTrip(r);
  }
}
