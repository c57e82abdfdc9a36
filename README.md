# BMP image writer, modelled in Dafny

The C++ library `BMP` keeps an in-memory picture, `BMP::Image`: a grid of
`width × height` cells, each a `BMP::Color` of three unsigned 8-bit channels.
Client code reads and writes cells by column `x` and row `y`. Writes outside
the grid are ignored. A read outside the grid returns cell `(0, 0)`.
Assigning one image to another deep-copies the grid. `save` writes the image
as an uncompressed 24-bit Windows bitmap:

- a 14-byte file header;
- a 40-byte information header;
- the rows, each pixel as blue, green, red, and each row padded with zero
  bytes to a multiple of four.

This project models that library:

- `colors.dfy` (module `Colors`): the colour value, its channels as bytes, and
  channel-wise equality.
- `little_endian.dfy` (module `LittleEndian`): the way `save` splits a
  32-bit `int` into four bytes with shifts and `char` casts. It also holds the
  inverse reading and the round trip between the two.
- `bitmap.dfy` (module `Bitmap`): the file layout as pure functions, with
  lemmas that place every header field, pixel byte and padding byte at its
  offset:
  - `PaddingAmount`, `RowSize` and `FileSize` for the arithmetic;
  - `FileHeader`, `InfoHeader` and `PixelData` for the bytes;
  - `Encode` for the whole file.
- `bitmap_decode.dfy` (module `BitmapDecode`): a reference reader for those
  files. It is the partner of the encoder: decoding an encoded image gives
  the image back.
- `image.dfy` (module `Images`): `BMP::Image` as a class.
  - `width`, `height` and a nullable two-dimensional `matrix` are updated in
    place, like the C++ fields.
  - A ghost `Cells` (rows of colours) is the abstract view, and `Valid()`
    ties it to the matrix.
  - `createMatrix` and the copy in `operator=` are loops, with their
    invariants.
  - `save` fills its two header buffers as arrays and appends the pixel bytes
    row by row. It is proved to produce exactly `Bitmap.Encode` of the image.

Some behaviours of the source are modelled as written:

- **Self-assignment empties the image.** `operator=` first releases the grid,
  which sets both dimensions to 0. It then copies the dimensions of `other`,
  which here is the image itself, so they stay 0. `Images.Image.Assign`
  states this outcome.
- **Rows are written top row first.** `save` writes row 0 first while the
  height field is positive, and bitmap readers take a positive height to
  mean bottom-up. So a viewer shows the picture upside down. The reference
  reader reads rows in the order `save` writes them.
- **Header parameter names disagree with the constructor.** The header
  declares the colour constructor's parameters as `red, blue, green`. The
  definition in `src/BMP.cpp` takes them as `red, green, blue` and stores
  them in that order. The model follows the definition: `Color(r, g, b)`.

## Model

| member | source | states |
|---|---|---|
| Colors.Equals | src/BMP.cpp:32-34 | two colours compare equal exactly when they are the same colour, all three channels alike |
| LittleEndian.LE32 | src/BMP.cpp:145-148 | a 32-bit field is written as exactly four bytes, least significant first |
| LittleEndian.LE32RoundTrip | src/BMP.cpp:145-148 | reading the four bytes written for `n` back as an unsigned number gives `n` modulo 2^32, and exactly `n` when `n` fits in 32 bits |
| LittleEndian.ByteOf | src/BMP.cpp:145-148 | byte `k` of `n` is `(char)(n >> 8k)`: the shift is division rounding down and the cast keeps the remainder modulo 256; `LittleEndian.LE32RoundTrip` proves the four such bytes hold `n` modulo 2^32 |
| LittleEndian.DecodeLE32 | src/BMP.cpp:175-184 | the reference reader for the four-byte fields written here: four bytes read least significant first always give a value in 0 .. 2^32-1 |
| LittleEndian.DecodeLE32RoundTrip | src/BMP.cpp:175-184 | the reference reader for the four-byte fields written here: writing back the value read from four bytes gives the same four bytes, so a field holds exactly one value |
| Bitmap.PaddingAmount | src/BMP.cpp:127 | the padding added to a row is between 0 and 3 bytes |
| Bitmap.RowAlignment | src/BMP.cpp:121-127 | a row, pixels plus padding, is a multiple of four bytes and less than four bytes longer than its pixels |
| Bitmap.RowSize | src/BMP.cpp:127-130 | the bytes one row takes, `width*3 + paddingAmount`; `Bitmap.RowAlignment` proves it the least multiple of four that holds the pixels |
| Bitmap.FileSize | src/BMP.cpp:130 | the `fileSize` of `save`, both headers plus `height` rows; `Bitmap.EncodeLength` proves it the length of the file written |
| Bitmap.PaddingIsUnique | src/BMP.cpp:121-127 | no other padding in 0..3 aligns the row, so the padding is the least amount that does |
| Bitmap.Zeros | src/BMP.cpp:128 | the padding source holds only zero bytes, as many as asked |
| Bitmap.FileHeader | src/BMP.cpp:136-160 | the file header is 14 bytes |
| Bitmap.InfoHeader | src/BMP.cpp:164-228 | the information header is 40 bytes |
| Bitmap.Headers | src/BMP.cpp:230-231 | both headers together are 54 bytes, the pixel data offset |
| Bitmap.PixelTriple | src/BMP.cpp:239-242 | one pixel as written, blue, green, red; `Bitmap.RowPixelsAt` and `Bitmap.PixelBytes` place its bytes in the row and in the file |
| Bitmap.RowPixels | src/BMP.cpp:237-245 | the pixel bytes of a row are three per pixel |
| Bitmap.EncodeRow | src/BMP.cpp:237-247 | one row as written, its pixels then `paddingAmount` bytes of `bmpPad`; `Bitmap.PixelDataAt`, `Bitmap.PixelBytes` and `Bitmap.PaddingBytes` place its bytes in the file |
| Bitmap.PixelData | src/BMP.cpp:235-248 | all rows as written, row 0 first; `Bitmap.PixelDataLength` gives its length and `Bitmap.PixelDataAt` where each row starts |
| Bitmap.Encode | src/BMP.cpp:112-254 | the whole stream `save` writes, both headers then the pixel data; `Images.Image.Save` is proved to write exactly it, and `BitmapDecode.DecodeEncode` proves it loses nothing |
| Bitmap.EncodeLength | src/BMP.cpp:130 | the file written is exactly `54 + height * (3 * width + padding)` bytes, the size recorded in its header |
| Bitmap.RowPixelsAt | src/BMP.cpp:237-245 | byte `3*j + t` of a row's pixel bytes is byte `t` of the blue, green, red triple of column `j` |
| Bitmap.PixelDataLength | src/BMP.cpp:235-248 | `height` rows of `width` pixels with `pad` padding bytes take `height * (3 * width + pad)` bytes |
| Bitmap.PixelDataAt | src/BMP.cpp:235-248 | byte `t` of row `y` sits at offset `y * rowSize + t` of the pixel data |
| Bitmap.PixelDataInFile | src/BMP.cpp:230-235 | the pixel data follows the 54 header bytes unchanged |
| Bitmap.PixelByte | src/BMP.cpp:237-245 | channel byte `t` of pixel `(x, y)` is at offset `54 + y * rowSize + 3*x + t` of the file |
| Bitmap.PixelBytes | src/BMP.cpp:237-245 | pixel `(x, y)` is stored at `54 + y * rowSize + 3*x` as its blue, green and red bytes, in that order |
| Bitmap.PaddingBytes | src/BMP.cpp:247 | the padding bytes after each row's pixels are all zero, taken from the zeroed `bmpPad` |
| Bitmap.FileHeaderLayout | src/BMP.cpp:139-160 | the file header holds "BM", then the file size as a 32-bit little-endian field, four zero reserved bytes, and the offset 54 |
| Bitmap.InfoHeaderLayout | src/BMP.cpp:166-228 | the information header holds its size 40, the width and height as 32-bit little-endian fields, one plane, 24 bits per pixel, and zero in all 24 remaining bytes |
| Bitmap.HeadersInFile | src/BMP.cpp:230-231 | the file starts with the file header followed by the information header |
| Bitmap.FileHeaderFields | src/BMP.cpp:130-160 | the file starts with "BM" at bytes 0-1, then the file size at 2-5, four zero reserved bytes at 6-9, and the offset 54 at 10-13; the file size reads back exactly |
| Bitmap.InfoHeaderFields | src/BMP.cpp:166-228 | in the file, bytes 14-17 hold the header size 40, 18-21 the width, 22-25 the height, 26-27 one plane, 28-29 the bit count 24, and bytes 30-53 are zero |
| BitmapDecode.DecodeRow | src/BMP.cpp:237-243 | the reference reader for the pixel writes of these lines: reading a row back takes each pixel's blue, green and red from three consecutive bytes |
| BitmapDecode.DecodeRows | src/BMP.cpp:235-248 | the reference reader for the row loop of these lines: reading the pixel data back gives `height` rows of `width` pixels |
| BitmapDecode.Decode | src/BMP.cpp:130-228 | the reference reader for the headers written by these lines: it checks every header field against the value `save` writes, the reserved and zero fields included, and the length against the dimensions; an accepted file yields a well-shaped image whose dimensions the encoder can handle and whose file size is the file's length |
| BitmapDecode.DecodeOnlyHeaders | src/BMP.cpp:130-228 | the reference reader for these lines: a file is accepted only when its first 54 bytes are exactly the headers `save` writes for the dimensions it reads |
| BitmapDecode.ValidFileHeader | src/BMP.cpp:136-160 | the reference reader for these lines: the first 14 bytes of a file that passes the checks are the file header written for its length |
| BitmapDecode.ValidInfoHeader | src/BMP.cpp:164-228 | the reference reader for these lines: bytes 14-53 of a file that passes the checks are the information header written for the width and height they hold |
| BitmapDecode.ValidHeadersAreHeaders | src/BMP.cpp:130-228 | the reference reader for these lines: header bytes that pass every field check (magic, size, reserved, offset, header size, planes, bit count and the zero fields) are byte for byte the headers written for the width and height they hold |
| BitmapDecode.HeadersAreValidHeaders | src/BMP.cpp:130-228 | the reference reader for these lines: the headers written for any dimensions without `int` overflow pass every field check and read back that width and height |
| BitmapDecode.DecodeAcceptsHeaders | src/BMP.cpp:130-228 | the reference reader for these lines: every file of the right length that starts with the headers written for its dimensions is accepted, whatever its pixel bytes |
| BitmapDecode.DecodeRowsOfEncode | src/BMP.cpp:235-248 | the reference reader for the row loop of these lines: the rows read back from the written pixel data are the image's rows |
| BitmapDecode.DecodeEncode | src/BMP.cpp:112-254 | the reference reader for everything `save` writes: reading back the bytes written for an image gives that image: same width, height and every cell |
| Images.Blank | src/BMP.cpp:46-52 | a fresh grid has `height` rows of `width` cells, every one of them the default colour (0, 0, 0) |
| Images.SameCells | src/BMP.cpp:105-107 | two grids of the same shape that agree on every cell are equal |
| Images.FileSizeFormula | src/BMP.cpp:127-130 | the padding and file size computed inside `save` are `PaddingAmount` and `FileSize` |
| Images.RowPixelsSnoc | src/BMP.cpp:237-245 | writing one more pixel of a row appends its three bytes |
| Images.PixelDataSnoc | src/BMP.cpp:235-248 | writing one more row appends its pixel bytes and then its padding |
| Images.Image.constructor | src/BMP.cpp:36-40 | a new image has the given width and height and all cells black |
| Images.Image.DestroyMatrix | src/BMP.cpp:54-65 | releasing the grid leaves no grid. If there was one, both dimensions become 0 and the image has no cells; otherwise nothing changes |
| Images.Image.CreateMatrix | src/BMP.cpp:46-52 | the old grid is released first, and then a black grid of the current dimensions is allocated. After an existing grid, those dimensions are 0 |
| Images.Image.PositionIsValid | src/BMP.cpp:67-69 | a position is valid exactly when it addresses a cell of the grid |
| Images.Image.GetColor | src/BMP.cpp:71-75 | inside the grid, the cell at `(x, y)`; outside it, the cell at `(0, 0)` |
| Images.Image.SetColor | src/BMP.cpp:77-82 | inside the grid, cell `(x, y)` becomes the colour, reading it back gives that colour, and every other cell is unchanged; outside it, no cell changes |
| Images.Image.SetChannels | src/BMP.cpp:84-97 | the same as `SetColor` with the colour made of the three channels given |
| Images.Image.Assign | src/BMP.cpp:99-110 | the image gets its own newly allocated grid. From another image, it gets that image's dimensions and a copy of every cell. Assigned to itself, it becomes 0 × 0 |
| Images.AssignedCopyIsIndependent | src/BMP.cpp:99-110 | after assignment, writing to the source image leaves the copy holding the source's former cells |
| Images.Image.Save | src/BMP.cpp:112-254 | when the file opens, the bytes written are exactly the encoding of the image's dimensions and cells, and the result is true; otherwise nothing is written and the result is false |
| Images.Image.WritePixels | src/BMP.cpp:235-248 | the bytes written by the row and column loops are the encoding of the cells with the given padding |
| Images.FileHeaderBytes | src/BMP.cpp:136-160 | the file header buffer holds exactly `FileHeader(fileSize)` |
| Images.InfoHeaderBytes | src/BMP.cpp:164-228 | the information header buffer holds exactly `InfoHeader(width, height)` |

## Left out

- `src/main.cpp`, the drawing demo: it works in floating point and only uses the library.
- Opening the file is a parameter of `Images.Image.Save`: `fileOpened` says whether `ofstream::open` succeeded. The bytes handed to `ofstream::write` are returned as a sequence instead of being written. Closing the file and the console messages are not modelled.
- The destructors of `Image` and `Color`, and the `new[]`/`delete[]` calls. The array of row pointers is modelled as one two-dimensional array, which a fresh allocation replaces.
- The default arguments of `Image(w = 0, h = 0)` and `Color(red = 0, ..., ... = 0)` in `include/BMP.hpp`: a caller of the model passes the zeros explicitly.
- `Color::operator=` copies the three channels. That is the value semantics of the `Colors.Color` datatype, so it needs no member of its own.
- The copy constructor that C++ generates for `Image`, which shares the grid pointer: the source defines none, and the modelled operations do not use it.
- Images.Image.constructor: requires non-negative dimensions. In the source a negative height, or a negative width with a positive height, makes `new[]` throw. A negative width with height 0 is accepted by the source, which then holds an empty image whose `save` writes a 54-byte file with width field `FF FF FF FF`; this model excludes that case.
- Images.Image.Save: computes in unbounded integers. It does not model the 32-bit overflow of `height*(width*3 + paddingAmount)` for very large images. The decoding round trip (`BitmapDecode.DecodeEncode`), `Bitmap.FileHeaderFields` and `Bitmap.InfoHeaderFields` therefore assume `Bitmap.Encodable`, the dimensions for which no `int` computation overflows.
- Images.Image.GetColor: requires a non-empty grid when the position is outside it. The source then reads `matrix[0][0]`, which does not exist for an empty grid.
- Images.Image.SetChannels: writes the three channels of a cell as one colour instead of one field at a time. No reader can observe the difference.
- Images.FileHeaderBytes and Images.InfoHeaderBytes: fill their fixed-size header arrays from an array display instead of one assignment per element. The values and their positions are the same.
- Images.Image.WritePixels: the nested row and column loops of `save` form a method of their own, which `Images.Image.Save` calls.
