/** The byte layout written by `Image::save`: an uncompressed 24-bit Windows
    bitmap made of a 14-byte BITMAPFILEHEADER, a 40-byte BITMAPINFOHEADER and
    the pixel rows, each padded to a multiple of four bytes. The rows are
    written in the order they are stored (row 0 first) although the height
    field is positive, which bitmap readers take to mean bottom-up. */
module Bitmap {
  import opened Colors
  import opened LittleEndian

  const FileHeaderSize: int := 14
  const InfoHeaderSize: int := 40
  /** Offset of the first pixel byte: both headers. */
  const PixelDataOffset: int := FileHeaderSize + InfoHeaderSize
  /** The largest value of a C++ `int`. */
  const Int32Max: int := 0x7FFF_FFFF

  /** The dimensions and cells of an image; `rows[y][x]` is the pixel at
      column `x` of row `y`. */
  datatype Raster = Raster(width: int, height: int, rows: seq<seq<Color>>)

  /** `rows` has `height` rows of `width` cells each. */
  predicate Shaped(img: Raster) {
    0 <= img.width && 0 <= img.height && |img.rows| == img.height &&
    forall y :: 0 <= y < |img.rows| ==> |img.rows[y]| == img.width
  }

  /** Zero bytes appended to each row: the least amount that brings the row's
      `width * 3` pixel bytes to a multiple of four. */
  function PaddingAmount(width: int): (pad: int)
    requires 0 <= width
    ensures 0 <= pad <= 3
  {
    (4 - (width * 3) % 4) % 4
  }

  /** Bytes taken by one row in the file. */
  function RowSize(width: int): int
    requires 0 <= width
  {
    width * 3 + PaddingAmount(width)
  }

  /** A row takes the fewest bytes that hold its pixels and are a multiple
      of four: the padding is the one amount in 0..3 that aligns the row. */
  lemma RowAlignment(width: int)
    requires 0 <= width
    ensures RowSize(width) % 4 == 0
    ensures width * 3 <= RowSize(width) < width * 3 + 4
  {
  }

  /** No other amount of padding in 0..3 aligns the row. */
  lemma PaddingIsUnique(width: int, p: int)
    requires 0 <= width && 0 <= p <= 3 && (width * 3 + p) % 4 == 0
    ensures p == PaddingAmount(width)
  {
  }

  function FileSize(width: int, height: int): int
    requires 0 <= width
  {
    FileHeaderSize + InfoHeaderSize + height * RowSize(width)
  }

  /** The dimensions for which none of the `int` computations of the
      encoder (`width*3`, the row size, the file size) overflows. */
  predicate Encodable(width: int, height: int) {
    0 <= width <= Int32Max && 0 <= height <= Int32Max &&
    RowSize(width) <= Int32Max && FileSize(width, height) <= Int32Max
  }

  function Zeros(n: nat): (z: seq<byte>)
    ensures |z| == n && forall k :: 0 <= k < n ==> z[k] == 0
  {
    seq(n, _ => 0)
  }

  /** BITMAPFILEHEADER: magic "BM", the file size, four reserved bytes and
      the offset of the pixel data. */
  function FileHeader(fileSize: int): (h: seq<byte>)
    ensures |h| == FileHeaderSize
  {
    [0x42, 0x4D] + LE32(fileSize) + [0, 0, 0, 0] + [PixelDataOffset, 0, 0, 0]
  }

  /** BITMAPINFOHEADER: its own size, width, height, one plane, 24 bits per
      pixel, and zero for compression, image size, both resolutions and
      both colour counts. */
  function InfoHeader(width: int, height: int): (h: seq<byte>)
    ensures |h| == InfoHeaderSize
  {
    [InfoHeaderSize, 0, 0, 0] + LE32(width) + LE32(height) + [1, 0] + [24, 0] + Zeros(24)
  }

  /** One pixel as it goes to the file: blue, green, red. */
  function PixelTriple(c: Color): seq<byte> {
    [c.b, c.g, c.r]
  }

  /** The pixel bytes of one row, column 0 first. */
  function RowPixels(row: seq<Color>): (bs: seq<byte>)
    ensures |bs| == 3 * |row|
  {
    if |row| == 0 then [] else RowPixels(row[..|row| - 1]) + PixelTriple(row[|row| - 1])
  }

  /** One row as it goes to the file: its pixels, then the padding. */
  function EncodeRow(row: seq<Color>, pad: nat): seq<byte> {
    RowPixels(row) + Zeros(pad)
  }

  /** The rows in storage order, row 0 first. */
  function PixelData(rows: seq<seq<Color>>, pad: nat): seq<byte> {
    if |rows| == 0 then [] else PixelData(rows[..|rows| - 1], pad) + EncodeRow(rows[|rows| - 1], pad)
  }

  /** Both headers, as written before the pixels. */
  function Headers(width: int, height: int): (hd: seq<byte>)
    requires 0 <= width
    ensures |hd| == PixelDataOffset
  {
    FileHeader(FileSize(width, height)) + InfoHeader(width, height)
  }

  /** The whole file written for `img`. */
  function Encode(img: Raster): seq<byte>
    requires Shaped(img)
  {
    Headers(img.width, img.height) + PixelData(img.rows, PaddingAmount(img.width))
  }

  /** The file is exactly `FileSize(width, height)` bytes long. */
  lemma EncodeLength(img: Raster)
    requires Shaped(img)
    ensures |Encode(img)| == FileSize(img.width, img.height)
  {
    PixelDataLength(img.rows, img.width, PaddingAmount(img.width), RowSize(img.width));
  }

  /** Column `j` of a row occupies bytes `3*j .. 3*j+2`, blue first. */
  lemma {:induction false} RowPixelsAt(row: seq<Color>, j: int, t: int)
    requires 0 <= j < |row| && 0 <= t < 3
    ensures RowPixels(row)[3 * j + t] == PixelTriple(row[j])[t]
  {
    var n := |row|;
    if j < n - 1 {
      RowPixelsAt(row[..n - 1], j, t);
      assert row[..n - 1][j] == row[j];
    }
  }

  lemma MulNonNegative(a: int, b: int)
    requires 0 <= a && 0 <= b
    ensures 0 <= a * b
  {
  }

  /** Every row takes `rowSize == 3 * width + pad` bytes. */
  lemma {:induction false} PixelDataLength(rows: seq<seq<Color>>, width: int, pad: nat, rowSize: int)
    requires 0 <= width && rowSize == 3 * width + pad
    requires forall y :: 0 <= y < |rows| ==> |rows[y]| == width
    ensures |PixelData(rows, pad)| == |rows| * rowSize
  {
    if |rows| > 0 {
      PixelDataLength(rows[..|rows| - 1], width, pad, rowSize);
      assert |rows| * rowSize == (|rows| - 1) * rowSize + rowSize;
    }
  }

  /** Row `y` starts `y * rowSize` bytes into the pixel data. */
  lemma {:induction false} PixelDataAt(rows: seq<seq<Color>>, width: int, pad: nat, rowSize: int, y: int, t: int)
    requires 0 <= width && rowSize == 3 * width + pad
    requires forall y' :: 0 <= y' < |rows| ==> |rows[y']| == width
    requires 0 <= y < |rows| && 0 <= t < rowSize
    ensures 0 <= y * rowSize + t < |PixelData(rows, pad)|
    ensures PixelData(rows, pad)[y * rowSize + t] == EncodeRow(rows[y], pad)[t]
  {
    var n := |rows|;
    var front := rows[..n - 1];
    MulNonNegative(y, rowSize);
    PixelDataLength(front, width, pad, rowSize);
    PixelDataLength(rows, width, pad, rowSize);
    if y < n - 1 {
      PixelDataAt(front, width, pad, rowSize, y, t);
      assert front[y] == rows[y];
    } else {
      assert y * rowSize == |front| * rowSize;
    }
  }

  /** Byte `k` of the pixel data is byte `54 + k` of the file. */
  lemma PixelDataInFile(img: Raster, k: int)
    requires Shaped(img)
    requires 0 <= k < |PixelData(img.rows, PaddingAmount(img.width))|
    ensures PixelDataOffset + k < |Encode(img)|
    ensures Encode(img)[PixelDataOffset + k] == PixelData(img.rows, PaddingAmount(img.width))[k]
  {
    assert Encode(img) == Headers(img.width, img.height) + PixelData(img.rows, PaddingAmount(img.width));
  }

  /** Byte `t` of the pixel at column `x` of row `y` (0 blue, 1 green, 2 red)
      is byte `at == 54 + y * RowSize(width) + 3 * x + t` of the file. */
  lemma PixelByte(img: Raster, x: int, y: int, t: int, at: int)
    requires Shaped(img)
    requires 0 <= x < img.width && 0 <= y < img.height && 0 <= t < 3
    requires at == PixelDataOffset + y * RowSize(img.width) + 3 * x + t
    ensures 0 <= at < |Encode(img)| && Encode(img)[at] == PixelTriple(img.rows[y][x])[t]
  {
    var w, pad := img.width, PaddingAmount(img.width);
    var i := at - PixelDataOffset;
    RowPixelsAt(img.rows[y], x, t);
    PixelDataAt(img.rows, w, pad, RowSize(w), y, 3 * x + t);
    assert PixelData(img.rows, pad)[i] == RowPixels(img.rows[y])[3 * x + t];
    PixelDataInFile(img, i);
  }

  /** The pixel at column `x` of row `y` is written blue, green, red from
      offset `at == 54 + y * RowSize(width) + 3 * x` on. */
  lemma PixelBytes(img: Raster, x: int, y: int, at: int)
    requires Shaped(img)
    requires 0 <= x < img.width && 0 <= y < img.height
    requires at == PixelDataOffset + y * RowSize(img.width) + 3 * x
    ensures 0 <= at && at + 2 < |Encode(img)|
    ensures Encode(img)[at] == img.rows[y][x].b
    ensures Encode(img)[at + 1] == img.rows[y][x].g
    ensures Encode(img)[at + 2] == img.rows[y][x].r
  {
    PixelByte(img, x, y, 0, at);
    PixelByte(img, x, y, 1, at + 1);
    PixelByte(img, x, y, 2, at + 2);
  }

  /** The `PaddingAmount(width)` bytes that close each row, from offset
      `at == 54 + y * RowSize(width) + 3 * width` on, are zero. */
  lemma PaddingBytes(img: Raster, y: int, k: int, at: int)
    requires Shaped(img)
    requires 0 <= y < img.height && 0 <= k < PaddingAmount(img.width)
    requires at == PixelDataOffset + y * RowSize(img.width) + 3 * img.width
    ensures 0 <= at + k < |Encode(img)| && Encode(img)[at + k] == 0
  {
    var w, pad := img.width, PaddingAmount(img.width);
    var i := at + k - PixelDataOffset;
    PixelDataAt(img.rows, w, pad, RowSize(w), y, 3 * w + k);
    assert PixelData(img.rows, pad)[i] == 0;
    PixelDataInFile(img, i);
  }

  /** The fields of BITMAPFILEHEADER. */
  lemma FileHeaderLayout(fileSize: int)
    requires 0 <= fileSize < Two32
    ensures FileHeader(fileSize)[0] == 0x42 && FileHeader(fileSize)[1] == 0x4D
    ensures DecodeLE32(FileHeader(fileSize)[2..6]) == fileSize
    ensures FileHeader(fileSize)[6..10] == [0, 0, 0, 0]
    ensures DecodeLE32(FileHeader(fileSize)[10..14]) == PixelDataOffset
  {
    assert FileHeader(fileSize)[2..6] == LE32(fileSize);
    LE32RoundTrip(fileSize);
  }

  /** The fields of BITMAPINFOHEADER. */
  lemma InfoHeaderLayout(width: int, height: int)
    requires 0 <= width < Two32 && 0 <= height < Two32
    ensures DecodeLE32(InfoHeader(width, height)[0..4]) == InfoHeaderSize
    ensures DecodeLE32(InfoHeader(width, height)[4..8]) == width
    ensures DecodeLE32(InfoHeader(width, height)[8..12]) == height
    ensures InfoHeader(width, height)[12..14] == [1, 0]
    ensures InfoHeader(width, height)[14..16] == [24, 0]
    ensures forall k :: 16 <= k < InfoHeaderSize ==> InfoHeader(width, height)[k] == 0
  {
    var ih := InfoHeader(width, height);
    assert ih[4..8] == LE32(width);
    assert ih[8..12] == LE32(height);
    LE32RoundTrip(width);
    LE32RoundTrip(height);
  }

  /** Where the two headers sit in the file. */
  lemma HeadersInFile(img: Raster)
    requires Shaped(img)
    ensures PixelDataOffset <= |Encode(img)|
    ensures Encode(img)[0..FileHeaderSize] == FileHeader(FileSize(img.width, img.height))
    ensures Encode(img)[FileHeaderSize..PixelDataOffset] == InfoHeader(img.width, img.height)
  {
    var fh, ih := FileHeader(FileSize(img.width, img.height)), InfoHeader(img.width, img.height);
    assert Encode(img) == fh + ih + PixelData(img.rows, PaddingAmount(img.width));
  }

  /** A slice of a slice is a slice of the whole. */
  lemma SliceOfSlice(s: seq<byte>, a: int, b: int, i: int, j: int)
    requires 0 <= a <= b <= |s| && 0 <= i <= j <= b - a
    ensures s[a..b][i..j] == s[a + i..a + j]
  {
    forall k | 0 <= k < j - i ensures s[a..b][i..j][k] == s[a + i..a + j][k] {
      assert s[a..b][i..j][k] == s[a..b][i + k];
    }
  }

  /** The file header fields as they appear in the file: magic "BM", the
      file size, four reserved zero bytes and the pixel-data offset 54. The
      size reads back exactly because it does not overflow its field. */
  lemma FileHeaderFields(img: Raster)
    requires Shaped(img) && Encodable(img.width, img.height)
    ensures PixelDataOffset <= |Encode(img)|
    ensures Encode(img)[0] == 0x42 && Encode(img)[1] == 0x4D
    ensures DecodeLE32(Encode(img)[2..6]) == FileSize(img.width, img.height)
    ensures Encode(img)[6..10] == [0, 0, 0, 0]
    ensures DecodeLE32(Encode(img)[10..14]) == PixelDataOffset
  {
    var bytes := Encode(img);
    HeadersInFile(img);
    MulNonNegative(img.height, RowSize(img.width));
    FileHeaderLayout(FileSize(img.width, img.height));
    assert bytes[0] == bytes[0..FileHeaderSize][0];
    assert bytes[1] == bytes[0..FileHeaderSize][1];
    SliceOfSlice(bytes, 0, FileHeaderSize, 2, 6);
    SliceOfSlice(bytes, 0, FileHeaderSize, 6, 10);
    SliceOfSlice(bytes, 0, FileHeaderSize, 10, 14);
  }

  /** The information header fields as they appear in the file: header size
      40, width, height, one plane and 24 bits per pixel; every later header
      byte is 0. */
  lemma InfoHeaderFields(img: Raster)
    requires Shaped(img) && Encodable(img.width, img.height)
    ensures PixelDataOffset <= |Encode(img)|
    ensures DecodeLE32(Encode(img)[14..18]) == InfoHeaderSize
    ensures DecodeLE32(Encode(img)[18..22]) == img.width
    ensures DecodeLE32(Encode(img)[22..26]) == img.height
    ensures Encode(img)[26..28] == [1, 0]
    ensures Encode(img)[28..30] == [24, 0]
    ensures forall k :: 30 <= k < PixelDataOffset ==> Encode(img)[k] == 0
  {
    var bytes := Encode(img);
    HeadersInFile(img);
    InfoHeaderLayout(img.width, img.height);
    SliceOfSlice(bytes, FileHeaderSize, PixelDataOffset, 0, 4);
    SliceOfSlice(bytes, FileHeaderSize, PixelDataOffset, 4, 8);
    SliceOfSlice(bytes, FileHeaderSize, PixelDataOffset, 8, 12);
    SliceOfSlice(bytes, FileHeaderSize, PixelDataOffset, 12, 14);
    SliceOfSlice(bytes, FileHeaderSize, PixelDataOffset, 14, 16);
    forall k | 30 <= k < PixelDataOffset ensures bytes[k] == 0 {
      assert bytes[k] == bytes[FileHeaderSize..PixelDataOffset][k - FileHeaderSize];
    }
  }
}
