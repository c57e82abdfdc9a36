/** A reference reader for the files the encoder writes. It is not part of
    the encoding code; it is the inverse against which the encoder's layout
    is checked: decoding an encoded image gives the image back. */
module BitmapDecode {
  import opened Colors
  import opened LittleEndian
  import opened Bitmap

  datatype Option<T> = None | Some(value: T)

  /** Row `y` starts `y * rowSize` bytes into the pixel data and its
      pixels end inside the file. */
  lemma RowFits(y: int, height: int, rowSize: int)
    requires 0 <= y < height && 0 <= rowSize
    ensures 0 <= y * rowSize && y * rowSize + rowSize <= height * rowSize
  {
    MulNonNegative(y, rowSize);
    MulNonNegative(height - y - 1, rowSize);
    assert height * rowSize == y * rowSize + rowSize + (height - y - 1) * rowSize;
  }

  /** The `width` pixels stored from `start` on, each read blue, green, red. */
  function DecodeRow(bytes: seq<byte>, start: int, width: int): (row: seq<Color>)
    requires 0 <= start && 0 <= width && start + 3 * width <= |bytes|
    ensures |row| == width
    ensures forall x :: 0 <= x < width ==>
              row[x].b == bytes[start + 3 * x] &&
              row[x].g == bytes[start + 3 * x + 1] &&
              row[x].r == bytes[start + 3 * x + 2]
  {
    seq(width, x requires 0 <= x < width =>
      Color(bytes[start + 3 * x + 2], bytes[start + 3 * x + 1], bytes[start + 3 * x]))
  }

  /** The `height` rows of the pixel data, row 0 first. */
  function DecodeRows(bytes: seq<byte>, width: int, height: int): (rows: seq<seq<Color>>)
    requires 0 <= width && 0 <= height
    requires PixelDataOffset + height * RowSize(width) <= |bytes|
    ensures Shaped(Raster(width, height, rows))
  {
    seq(height, y requires 0 <= y < height =>
      RowFits(y, height, RowSize(width));
      DecodeRow(bytes, PixelDataOffset + y * RowSize(width), width))
  }

  /** The header fields hold the values the encoder writes: "BM", a file
      size equal to the length, zero reserved bytes, the pixel data offset,
      the information header size, one plane, 24 bits per pixel and zero in
      the remaining information header bytes. */
  predicate HeaderFieldsValid(bytes: seq<byte>)
    requires PixelDataOffset <= |bytes|
  {
    bytes[0] == 0x42 && bytes[1] == 0x4D &&
    DecodeLE32(bytes[2..6]) == |bytes| && bytes[6..10] == [0, 0, 0, 0] &&
    DecodeLE32(bytes[10..14]) == PixelDataOffset &&
    DecodeLE32(bytes[14..18]) == InfoHeaderSize &&
    bytes[26..28] == [1, 0] && bytes[28..30] == [24, 0] &&
    forall k :: 30 <= k < PixelDataOffset ==> bytes[k] == 0
  }

  /** Reads a 24-bit file whose rows are stored row 0 first, as the encoder
      writes them; `None` when a header field holds a value other than the
      one the encoder writes there, or the length does not match the
      dimensions. */
  function Decode(bytes: seq<byte>): (img: Option<Raster>)
    ensures img.Some? ==> Shaped(img.value) && Encodable(img.value.width, img.value.height)
    ensures img.Some? ==> |bytes| == FileSize(img.value.width, img.value.height)
  {
    if |bytes| < PixelDataOffset then None
    else
      var width := DecodeLE32(bytes[18..22]);
      var height := DecodeLE32(bytes[22..26]);
      if HeaderFieldsValid(bytes) && Encodable(width, height) && |bytes| == FileSize(width, height)
      then Some(Raster(width, height, DecodeRows(bytes, width, height)))
      else None
  }

  /** Header fields that pass the reader's checks are byte for byte the
      headers the encoder writes for the dimensions they hold. */
  lemma ValidHeadersAreHeaders(bytes: seq<byte>, width: int, height: int)
    requires PixelDataOffset <= |bytes| && HeaderFieldsValid(bytes)
    requires width == DecodeLE32(bytes[18..22]) && height == DecodeLE32(bytes[22..26])
    requires |bytes| == FileSize(width, height)
    ensures bytes[..PixelDataOffset] == Headers(width, height)
  {
    ValidFileHeader(bytes);
    ValidInfoHeader(bytes, width, height);
    assert bytes[..PixelDataOffset] == bytes[..FileHeaderSize] + bytes[FileHeaderSize..PixelDataOffset];
  }

  /** The first 14 bytes of a file that passes the checks are the file
      header the encoder writes for its length. */
  lemma ValidFileHeader(bytes: seq<byte>)
    requires PixelDataOffset <= |bytes| && HeaderFieldsValid(bytes)
    ensures bytes[..FileHeaderSize] == FileHeader(|bytes|)
  {
    DecodeLE32RoundTrip(bytes[2..6]);
    DecodeLE32RoundTrip(bytes[10..14]);
    var fh := FileHeader(|bytes|);
    forall k | 0 <= k < FileHeaderSize ensures bytes[k] == fh[k] {
      if 2 <= k < 6 {
        assert bytes[k] == bytes[2..6][k - 2];
      } else if 6 <= k < 10 {
        assert bytes[k] == bytes[6..10][k - 6];
      } else if 10 <= k {
        assert bytes[k] == bytes[10..14][k - 10];
      }
    }
  }

  /** Bytes 14-53 of a file that passes the checks are the information
      header the encoder writes for the dimensions they hold. */
  lemma ValidInfoHeader(bytes: seq<byte>, width: int, height: int)
    requires PixelDataOffset <= |bytes| && HeaderFieldsValid(bytes)
    requires width == DecodeLE32(bytes[18..22]) && height == DecodeLE32(bytes[22..26])
    ensures bytes[FileHeaderSize..PixelDataOffset] == InfoHeader(width, height)
  {
    DecodeLE32RoundTrip(bytes[14..18]);
    DecodeLE32RoundTrip(bytes[18..22]);
    DecodeLE32RoundTrip(bytes[22..26]);
    var ih := InfoHeader(width, height);
    forall k | 0 <= k < InfoHeaderSize ensures bytes[FileHeaderSize + k] == ih[k] {
      var at := FileHeaderSize + k;
      if k < 4 {
        assert bytes[at] == bytes[14..18][k];
      } else if k < 8 {
        assert bytes[at] == bytes[18..22][k - 4];
      } else if k < 12 {
        assert bytes[at] == bytes[22..26][k - 8];
      } else if k < 16 {
        assert bytes[at] == (bytes[26..28] + bytes[28..30])[k - 12];
      }
    }
  }

  /** The reader accepts a file only when its first 54 bytes are exactly
      the headers the encoder writes for the dimensions they hold. */
  lemma DecodeOnlyHeaders(bytes: seq<byte>)
    ensures Decode(bytes).Some? ==>
              bytes[..PixelDataOffset] == Headers(Decode(bytes).value.width, Decode(bytes).value.height)
  {
    if PixelDataOffset <= |bytes| {
      var width := DecodeLE32(bytes[18..22]);
      var height := DecodeLE32(bytes[22..26]);
      if HeaderFieldsValid(bytes) && Encodable(width, height) && |bytes| == FileSize(width, height) {
        ValidHeadersAreHeaders(bytes, width, height);
      }
    }
  }

  /** The headers the encoder writes for dimensions it can handle pass the
      reader's checks, whatever pixel bytes follow them. */
  lemma HeadersAreValidHeaders(bytes: seq<byte>, width: int, height: int)
    requires Encodable(width, height) && |bytes| == FileSize(width, height)
    requires PixelDataOffset <= |bytes| && bytes[..PixelDataOffset] == Headers(width, height)
    ensures HeaderFieldsValid(bytes)
    ensures DecodeLE32(bytes[18..22]) == width && DecodeLE32(bytes[22..26]) == height
  {
    var fh, ih := FileHeader(FileSize(width, height)), InfoHeader(width, height);
    assert bytes[..FileHeaderSize] == fh && bytes[FileHeaderSize..PixelDataOffset] == ih by {
      assert bytes[..PixelDataOffset] == fh + ih;
      SliceOfSlice(bytes, 0, PixelDataOffset, 0, FileHeaderSize);
      SliceOfSlice(bytes, 0, PixelDataOffset, FileHeaderSize, PixelDataOffset);
    }
    FileHeaderLayout(FileSize(width, height));
    InfoHeaderLayout(width, height);
    SliceOfSlice(bytes, 0, FileHeaderSize, 2, 6);
    SliceOfSlice(bytes, 0, FileHeaderSize, 6, 10);
    SliceOfSlice(bytes, 0, FileHeaderSize, 10, 14);
    SliceOfSlice(bytes, FileHeaderSize, PixelDataOffset, 0, 4);
    SliceOfSlice(bytes, FileHeaderSize, PixelDataOffset, 4, 8);
    SliceOfSlice(bytes, FileHeaderSize, PixelDataOffset, 8, 12);
    SliceOfSlice(bytes, FileHeaderSize, PixelDataOffset, 12, 14);
    SliceOfSlice(bytes, FileHeaderSize, PixelDataOffset, 14, 16);
    forall k | 30 <= k < PixelDataOffset ensures bytes[k] == 0 {
      assert bytes[k] == ih[k - FileHeaderSize];
    }
  }

  /** The reader accepts exactly the files whose headers are the ones the
      encoder writes for dimensions it can handle and whose length matches
      those dimensions. */
  lemma DecodeAcceptsHeaders(bytes: seq<byte>, width: int, height: int)
    requires Encodable(width, height) && |bytes| == FileSize(width, height)
    requires PixelDataOffset <= |bytes| && bytes[..PixelDataOffset] == Headers(width, height)
    ensures Decode(bytes) == Some(Raster(width, height, DecodeRows(bytes, width, height)))
  {
    HeadersAreValidHeaders(bytes, width, height);
  }

  /** The rows read back from an encoded image are its rows. */
  lemma DecodeRowsOfEncode(img: Raster)
    requires Shaped(img)
    ensures PixelDataOffset + img.height * RowSize(img.width) <= |Encode(img)|
    ensures DecodeRows(Encode(img), img.width, img.height) == img.rows
  {
    var w, h := img.width, img.height;
    EncodeLength(img);
    var rows := DecodeRows(Encode(img), w, h);
    forall y | 0 <= y < h ensures rows[y] == img.rows[y] {
      RowFits(y, h, RowSize(w));
      var at := PixelDataOffset + y * RowSize(w);
      forall x | 0 <= x < w ensures rows[y][x] == img.rows[y][x] {
        PixelBytes(img, x, y, at + 3 * x);
      }
    }
  }

  /** Decoding what the encoder wrote gives back the same image. */
  lemma DecodeEncode(img: Raster)
    requires Shaped(img) && Encodable(img.width, img.height)
    ensures Decode(Encode(img)) == Some(img)
  {
    FileHeaderFields(img);
    InfoHeaderFields(img);
    EncodeLength(img);
    DecodeRowsOfEncode(img);
  }
}
