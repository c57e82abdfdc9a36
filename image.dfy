/** `BMP::Image`: a `width × height` grid of colours with bounds-checked
    reads and writes, deep-copy assignment, and `save`, which produces the
    bytes of the bitmap file. */
module Images {
  import opened Colors
  import opened LittleEndian
  import opened Bitmap

  /** `height` rows of `width` cells, every one of them black. */
  function Blank(width: nat, height: nat): (rows: seq<seq<Color>>)
    ensures Shaped(Raster(width, height, rows))
    ensures forall y, x :: 0 <= y < height && 0 <= x < width ==> rows[y][x] == Black
  {
    seq(height, _ => seq(width, _ => Black))
  }

  /** Two grids of the same shape with the same cells are the same grid. */
  lemma SameCells(a: seq<seq<Color>>, b: seq<seq<Color>>, width: int, height: int)
    requires Shaped(Raster(width, height, a)) && Shaped(Raster(width, height, b))
    requires forall y, x :: 0 <= y < height && 0 <= x < width ==> a[y][x] == b[y][x]
    ensures a == b
  {
    forall y | 0 <= y < height ensures a[y] == b[y] {
      assert forall x :: 0 <= x < width ==> a[y][x] == b[y][x];
    }
  }

  /** The file size as the encoder computes it, from the padding it computes. */
  lemma FileSizeFormula(width: int, height: int, pad: int)
    requires 0 <= width && pad == (4 - (width * 3) % 4) % 4
    ensures pad == PaddingAmount(width)
    ensures FileHeaderSize + InfoHeaderSize + height * (width * 3 + pad) == FileSize(width, height)
  {
    assert width * 3 + pad == RowSize(width);
  }

  /** Encoding a row one pixel further appends that pixel's three bytes. */
  lemma RowPixelsSnoc(row: seq<Color>, j: int)
    requires 0 <= j < |row|
    ensures RowPixels(row[..j + 1]) == RowPixels(row[..j]) + PixelTriple(row[j])
  {
    assert row[..j + 1][..j] == row[..j];
  }

  /** Encoding one row further appends that row's pixels and its padding. */
  lemma PixelDataSnoc(rows: seq<seq<Color>>, i: int, width: int, pad: nat)
    requires 0 <= i < |rows| && |rows[i]| == width && pad <= 3
    ensures PixelData(rows[..i + 1], pad) ==
            PixelData(rows[..i], pad) + RowPixels(rows[i][..width]) + [0, 0, 0][..pad]
  {
    assert rows[..i + 1][..i] == rows[..i];
    assert rows[i][..width] == rows[i];
    assert [0, 0, 0][..pad] == Zeros(pad);
  }

  class Image {
    var width: int
    var height: int
    /** Row `y` of the grid is `matrix[y, ..]`; null only between releasing
        one grid and allocating the next. */
    var matrix: array2?<Color>
    /** The cells, row by row: `Cells[y][x]` is the pixel at column `x` of
        row `y`. */
    ghost var Cells: seq<seq<Color>>

    ghost predicate Valid()
      reads this, matrix
    {
      matrix != null &&
      Shaped(Raster(width, height, Cells)) &&
      matrix.Length0 == height && matrix.Length1 == width &&
      forall y, x :: 0 <= y < height && 0 <= x < width ==> matrix[y, x] == Cells[y][x]
    }

    /** A new image: `h` rows of `w` black cells. */
    constructor (w: int, h: int)
      requires 0 <= w && 0 <= h
      ensures Valid() && fresh(matrix)
      ensures width == w && height == h && Cells == Blank(w, h)
    {
      width, height, matrix := w, h, null;
      new;
      CreateMatrix();
    }

    /** Releases the grid. When there was one, the dimensions drop to 0. */
    method DestroyMatrix()
      modifies this
      ensures matrix == null
      ensures old(matrix) == null ==> width == old(width) && height == old(height) && Cells == old(Cells)
      ensures old(matrix) != null ==> width == 0 && height == 0 && Cells == []
    {
      if matrix == null {
        return;
      }
      matrix := null;
      width, height := 0, 0;
      Cells := [];
    }

    /** Releases the current grid, then allocates a black one of the
        current dimensions (which releasing an existing grid has zeroed). */
    method CreateMatrix()
      requires 0 <= width && 0 <= height
      modifies this
      ensures Valid() && fresh(matrix)
      ensures old(matrix) == null ==> width == old(width) && height == old(height)
      ensures old(matrix) != null ==> width == 0 && height == 0
      ensures Cells == Blank(width, height)
    {
      DestroyMatrix();
      var w, h := width, height;
      var m := new Color[h, w];
      var y := 0;
      while y < h
        modifies m
        invariant 0 <= y <= h
        invariant forall i, j :: 0 <= i < y && 0 <= j < w ==> m[i, j] == Black
      {
        var x := 0;
        while x < w
          modifies m
          invariant 0 <= x <= w
          invariant forall i, j :: 0 <= i < y && 0 <= j < w ==> m[i, j] == Black
          invariant forall j :: 0 <= j < x ==> m[y, j] == Black
        {
          m[y, x] := Black;
          x := x + 1;
        }
        y := y + 1;
      }
      matrix := m;
      Cells := Blank(w, h);
    }

    /** Whether `(x, y)` addresses a cell of the grid. */
    predicate PositionIsValid(x: int, y: int)
      reads this, matrix
      ensures Valid() ==> (PositionIsValid(x, y) <==> 0 <= y < |Cells| && 0 <= x < |Cells[y]|)
    {
      0 <= x < width && 0 <= y < height
    }

    /** The cell at `(x, y)`; outside the grid, the cell at `(0, 0)`, which
        exists only when the grid is not empty. */
    function GetColor(x: int, y: int): (c: Color)
      reads this, matrix
      requires Valid()
      requires PositionIsValid(x, y) || (0 < width && 0 < height)
      ensures PositionIsValid(x, y) ==> c == Cells[y][x]
      ensures !PositionIsValid(x, y) ==> c == Cells[0][0]
    {
      if PositionIsValid(x, y) then matrix[y, x] else matrix[0, 0]
    }

    /** Writes `color` into `(x, y)`; does nothing outside the grid. */
    method SetColor(color: Color, x: int, y: int)
      requires Valid()
      modifies this`Cells, matrix
      ensures Valid()
      ensures PositionIsValid(x, y) ==> Cells == old(Cells)[y := old(Cells)[y][x := color]]
      ensures PositionIsValid(x, y) ==> GetColor(x, y) == color
      ensures forall i, j :: 0 <= i < height && 0 <= j < width && (i != y || j != x) ==>
                Cells[i][j] == old(Cells)[i][j]
      ensures !PositionIsValid(x, y) ==> Cells == old(Cells)
    {
      if !PositionIsValid(x, y) {
        return;
      }
      matrix[y, x] := color;
      Cells := Cells[y := Cells[y][x := color]];
    }

    /** Writes the colour with channels `r, g, b` into `(x, y)`; does
        nothing outside the grid. */
    method SetChannels(r: byte, g: byte, b: byte, x: int, y: int)
      requires Valid()
      modifies this`Cells, matrix
      ensures Valid()
      ensures PositionIsValid(x, y) ==> Cells == old(Cells)[y := old(Cells)[y][x := Color(r, g, b)]]
      ensures PositionIsValid(x, y) ==> GetColor(x, y) == Color(r, g, b)
      ensures forall i, j :: 0 <= i < height && 0 <= j < width && (i != y || j != x) ==>
                Cells[i][j] == old(Cells)[i][j]
      ensures !PositionIsValid(x, y) ==> Cells == old(Cells)
    {
      if !PositionIsValid(x, y) {
        return;
      }
      matrix[y, x] := Color(r, g, b);
      Cells := Cells[y := Cells[y][x := Color(r, g, b)]];
    }

    /** Assignment: releases the grid, takes the dimensions of `other`,
        allocates a fresh grid and copies every cell. Assigning an image to
        itself leaves it empty, since releasing the grid zeroed the
        dimensions that are then copied back. */
    method Assign(other: Image)
      requires Valid() && other.Valid()
      modifies this
      ensures Valid() && fresh(matrix)
      ensures other != this ==>
                width == old(other.width) && height == old(other.height) && Cells == old(other.Cells)
      ensures other == this ==> width == 0 && height == 0 && Cells == []
    {
      DestroyMatrix();
      width := other.width;
      height := other.height;
      CreateMatrix();
      var i := 0;
      while i < height
        modifies this`Cells, matrix
        invariant 0 <= i <= height
        invariant Valid() && other.Valid()
        invariant other.width == width && other.height == height
        invariant other != this ==> other.Cells == old(other.Cells)
        invariant forall y, x :: 0 <= y < i && 0 <= x < width ==> Cells[y][x] == other.Cells[y][x]
      {
        var j := 0;
        while j < width
          modifies this`Cells, matrix
          invariant 0 <= j <= width
          invariant Valid() && other.Valid()
          invariant other != this ==> other.Cells == old(other.Cells)
          invariant forall y, x :: 0 <= y < i && 0 <= x < width ==> Cells[y][x] == other.Cells[y][x]
          invariant forall x :: 0 <= x < j ==> Cells[i][x] == other.Cells[i][x]
        {
          SetColor(other.GetColor(j, i), j, i);
          j := j + 1;
        }
        i := i + 1;
      }
      SameCells(Cells, other.Cells, width, height);
    }

    /** `save`: when the file opens, the bytes written are `Encode` of the
        image; otherwise nothing is written and the result is false. */
    method Save(fileOpened: bool) returns (ok: bool, bytes: seq<byte>)
      requires Valid()
      ensures ok == fileOpened
      ensures ok ==> bytes == Encode(Raster(width, height, Cells))
      ensures !ok ==> bytes == []
    {
      if !fileOpened {
        return false, [];
      }
      var paddingAmount := (4 - (width * 3) % 4) % 4;
      var fileSize := FileHeaderSize + InfoHeaderSize + height * (width * 3 + paddingAmount);
      FileSizeFormula(width, height, paddingAmount);
      var fileHeader := FileHeaderBytes(fileSize);
      var infoHeader := InfoHeaderBytes(width, height);
      var pixels := WritePixels(paddingAmount);
      bytes := fileHeader + infoHeader + pixels;
      assert fileHeader + infoHeader == Headers(width, height);
      ok := true;
    }

    /** The pixel section of `save`: the rows in order, each pixel as its
        blue, green and red bytes, each row followed by `paddingAmount` zero
        bytes. */
    method WritePixels(paddingAmount: int) returns (pixels: seq<byte>)
      requires Valid() && 0 <= paddingAmount <= 3
      ensures pixels == PixelData(Cells, paddingAmount)
    {
      var bmpPad: seq<byte> := [0, 0, 0];
      pixels := [];
      var i := 0;
      while i < height
        invariant 0 <= i <= height
        invariant pixels == PixelData(Cells[..i], paddingAmount)
      {
        var j := 0;
        while j < width
          invariant 0 <= j <= width
          invariant pixels == PixelData(Cells[..i], paddingAmount) + RowPixels(Cells[i][..j])
        {
          var r := GetColor(j, i).r;
          var g := GetColor(j, i).g;
          var b := GetColor(j, i).b;
          pixels := pixels + [b, g, r];
          RowPixelsSnoc(Cells[i], j);
          j := j + 1;
        }
        pixels := pixels + bmpPad[..paddingAmount];
        PixelDataSnoc(Cells, i, width, paddingAmount);
        i := i + 1;
      }
      assert Cells[..height] == Cells;
    }
  }

  /** The 14-byte file header buffer: signature, file size, reserved bytes
      and the offset of the pixel data. */
  method FileHeaderBytes(fileSize: int) returns (header: seq<byte>)
    ensures header == FileHeader(fileSize)
  {
    var buffer := new byte[] [
      0x42, 0x4D,
      ByteOf(fileSize, 0), ByteOf(fileSize, 1), ByteOf(fileSize, 2), ByteOf(fileSize, 3),
      0, 0, 0, 0,
      PixelDataOffset, 0, 0, 0];
    header := buffer[..];
  }

  /** The 40-byte information header buffer: header size, width, height,
      planes, bits per pixel, and six zero fields (compression, image size,
      horizontal and vertical resolution, palette size, important colours). */
  method InfoHeaderBytes(width: int, height: int) returns (header: seq<byte>)
    ensures header == InfoHeader(width, height)
  {
    var buffer := new byte[] [
      InfoHeaderSize, 0, 0, 0,
      ByteOf(width, 0), ByteOf(width, 1), ByteOf(width, 2), ByteOf(width, 3),
      ByteOf(height, 0), ByteOf(height, 1), ByteOf(height, 2), ByteOf(height, 3),
      1, 0,
      24, 0,
      0, 0, 0, 0,
      0, 0, 0, 0,
      0, 0, 0, 0,
      0, 0, 0, 0,
      0, 0, 0, 0,
      0, 0, 0, 0];
    header := buffer[..];
  }

  /** Assignment copies: writing to the source afterwards leaves the copy
      as the source was. */
  method AssignedCopyIsIndependent(target: Image, source: Image, c: Color, x: int, y: int)
    requires target != source && target.Valid() && source.Valid()
    modifies target, source, source.matrix
    ensures target.Valid() && source.Valid()
    ensures target.Cells == old(source.Cells)
    ensures source.PositionIsValid(x, y) ==> source.GetColor(x, y) == c
  {
    target.Assign(source);
    source.SetColor(c, x, y);
  }
}
