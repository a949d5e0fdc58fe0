/**
 Little-endian fields, the 24-bit BMP writer and the reader of uncompressed 24- and 32-bit files
 (src/cpp/image.cpp).  Files are byte sequences; opening, reading and writing them is not modelled.
 */
module Bmp {
  import opened Basics
  import opened Arithmetic

  type int32 = x: int | -0x8000_0000 <= x < 0x8000_0000
  type uint32 = x: int | 0 <= x < 0x1_0000_0000

  const SIZE_T := 0x1_0000_0000_0000_0000

  // ------------------------------------------------------------------ little-endian fields

  function LE16(value: int): (bytes: seq<byte>)
    requires 0 <= value < 0x1_0000
    ensures |bytes| == 2
  {
    [value % 256, value / 256]
  }

  function LE32(value: uint32): (bytes: seq<byte>)
    ensures |bytes| == 4
  {
    [value % 256, value / 256 % 256, value / 65536 % 256, value / 16777216]
  }

  function GetLE16(bytes: seq<byte>, at: nat): (value: int)
    requires at + 2 <= |bytes|
    ensures 0 <= value < 0x1_0000
  {
    var b0: int, b1: int := bytes[at], bytes[at + 1];
    b0 + b1 * 256
  }

  function GetLE32(bytes: seq<byte>, at: nat): (value: uint32)
    requires at + 4 <= |bytes|
  {
    var b0: int, b1: int, b2: int, b3: int := bytes[at], bytes[at + 1], bytes[at + 2], bytes[at + 3];
    b0 + b1 * 256 + b2 * 65536 + b3 * 16777216
  }

  method PutLE16(dst: array<byte>, at: nat, value: int)
    requires at + 2 <= dst.Length && 0 <= value < 0x1_0000
    modifies dst
    ensures dst[at..at + 2] == LE16(value)
    ensures forall k | 0 <= k < dst.Length && !(at <= k < at + 2) :: dst[k] == old(dst[k])
  {
    dst[at] := value % 256;
    dst[at + 1] := value / 256 % 256;
  }

  method PutLE32(dst: array<byte>, at: nat, value: uint32)
    requires at + 4 <= dst.Length
    modifies dst
    ensures dst[at..at + 4] == LE32(value)
    ensures forall k | 0 <= k < dst.Length && !(at <= k < at + 4) :: dst[k] == old(dst[k])
  {
    ghost var bytes := LE32(value);
    dst[at] := value % 256;
    dst[at + 1] := value / 256 % 256;
    dst[at + 2] := value / 65536 % 256;
    dst[at + 3] := value / 16777216 % 256;
    assert dst[at + 3] == bytes[3] && dst[at..at + 4] == bytes;
  }

  lemma LE32Value(value: uint32)
    ensures value % 256 + value / 256 % 256 * 256 + value / 65536 % 256 * 65536 + value / 16777216 * 16777216 == value
  {
    assert value / 65536 == value / 256 / 256;
    assert value / 16777216 == value / 65536 / 256;
  }

  lemma FieldReadsBack(bytes: seq<byte>, at: nat, value: uint32)
    requires at + 4 <= |bytes| && bytes[at..at + 4] == LE32(value)
    ensures GetLE32(bytes, at) == value
  {
    var field := bytes[at..at + 4];
    assert field[0] == bytes[at] && field[1] == bytes[at + 1] && field[2] == bytes[at + 2] && field[3] == bytes[at + 3];
    LE32Value(value);
  }

  lemma ShortFieldReadsBack(bytes: seq<byte>, at: nat, value: int)
    requires 0 <= value < 0x1_0000 && at + 2 <= |bytes| && bytes[at..at + 2] == LE16(value)
    ensures GetLE16(bytes, at) == value
  {
    var field := bytes[at..at + 2];
    assert field[0] == bytes[at] && field[1] == bytes[at + 1];
  }

  /** The two's-complement reading of a field. */
  function AsInt32(value: uint32): int32 {
    if value < 0x8000_0000 then value else value - 0x1_0000_0000
  }

  // ------------------------------------------------------------------ index arithmetic

  /** Pixel (x, y) of a w-by-h image of four bytes a pixel lies inside it. */
  lemma PixelInside(w: nat, h: nat, x: nat, y: nat)
    requires x < w && y < h
    ensures 0 <= y * (w * 4) && y * (w * 4) + x * 4 + 4 <= h * (w * 4)
  {
    Product(0, 0, y, w * 4);
    Product(y + 1, w * 4, h, w * 4);
  }

  lemma Regroup(w: nat, h: nat)
    ensures w * h * 4 == h * (w * 4)
  {
  }

  // ------------------------------------------------------------------ the written file

  function RowBytes(w: nat): nat { w * 3 }
  function Pad(w: nat): nat { (4 - RowBytes(w) % 4) % 4 }
  function Stride(w: nat): nat { RowBytes(w) + Pad(w) }

  function PictureSize(w: nat, h: nat): (size: nat)
  {
    Product(0, 0, Stride(w), h);
    Stride(w) * h
  }

  function Zeros(n: nat): (zeros: seq<byte>)
    ensures |zeros| == n
  {
    seq(n, _ => 0)
  }

  /** The 54 bytes in front of the picture: ten fields, and zeros everywhere else. */
  predicate HeaderOf(header: seq<byte>, w: int32, h: int32, size: nat)
    requires w >= 0 && h >= 0 && size + 54 < 0x1_0000_0000
  {
    && |header| == 54 && header[0] == 'B' as int && header[1] == 'M' as int
    && header[2..6] == LE32(54 + size) && header[10..14] == LE32(54) && header[14..18] == LE32(40)
    && header[18..22] == LE32(w) && header[22..26] == LE32(h) && header[26..28] == LE16(1)
    && header[28..30] == LE16(24) && header[34..38] == LE32(size)
    && header[6..10] == Zeros(4) && header[30..34] == Zeros(4) && header[38..54] == Zeros(16)
  }

  /** The first `x` pixels of image row `y`, blue first. */
  function BgrRow(rgba: seq<byte>, w: nat, h: nat, y: nat, x: nat): (row: seq<byte>)
    requires x <= w && y < h && h * (w * 4) <= |rgba|
    ensures |row| == x * 3
  {
    if x == 0 then []
    else
      PixelInside(w, h, x - 1, y);
      var px := y * (w * 4) + (x - 1) * 4;
      BgrRow(rgba, w, h, y, x - 1) + [rgba[px + 2], rgba[px + 1], rgba[px]]
  }

  /** The first `lines` rows of the file's picture: the image's rows from the bottom up. */
  function FileRows(rgba: seq<byte>, w: nat, h: nat, lines: nat): (rows: seq<byte>)
    requires lines <= h && h * (w * 4) <= |rgba|
    ensures |rows| == lines * Stride(w)
  {
    if lines == 0 then []
    else FileRows(rgba, w, h, lines - 1) + (BgrRow(rgba, w, h, h - lines, w) + Zeros(Pad(w)))
  }

  predicate Writable(rgba: seq<byte>, width: int32, height: int32) {
    && width > 0 && height > 0 && height * (width * 4) <= |rgba|
    && PictureSize(width, height) <= 0xffff_ffff - 54
  }

  /** `file` is the picture as a BMP: this fixes every byte of it. */
  predicate IsBmpOf(file: seq<byte>, rgba: seq<byte>, w: int32, h: int32)
    requires Writable(rgba, w, h)
  {
    |file| >= 54 && HeaderOf(file[..54], w, h, PictureSize(w, h)) && file[54..] == FileRows(rgba, w, h, h)
  }

  method MakeHeader(w: int32, h: int32, size: nat) returns (header: array<byte>)
    requires w >= 0 && h >= 0 && size + 54 < 0x1_0000_0000
    ensures fresh(header) && HeaderOf(header[..], w, h, size)
  {
    header := new byte[54](_ => 0);
    PutFileHeader(header, size);
    PutInfoHeader(header, w, h, size);
  }

  /** The first 14 bytes. */
  method PutFileHeader(header: array<byte>, size: nat)
    requires header.Length == 54 && size + 54 < 0x1_0000_0000 && forall k | 0 <= k < 54 :: header[k] == 0
    modifies header
    ensures header[0] == 'B' as int && header[1] == 'M' as int
    ensures header[2..6] == LE32(54 + size) && header[6..10] == Zeros(4) && header[10..14] == LE32(54)
    ensures forall k | 14 <= k < 54 :: header[k] == 0
  {
    header[0] := 'B' as int;
    header[1] := 'M' as int;
    PutLE32(header, 2, 54 + size);
    PutLE32(header, 10, 54);
  }

  /** The 40 bytes after them. */
  method PutInfoHeader(header: array<byte>, w: int32, h: int32, size: nat)
    requires header.Length == 54 && w >= 0 && h >= 0 && size + 54 < 0x1_0000_0000
    requires forall k | 14 <= k < 54 :: header[k] == 0
    modifies header
    ensures header[14..18] == LE32(40) && header[18..22] == LE32(w) && header[22..26] == LE32(h)
    ensures header[26..28] == LE16(1) && header[28..30] == LE16(24) && header[30..34] == Zeros(4)
    ensures header[34..38] == LE32(size) && header[38..54] == Zeros(16)
    ensures forall k | 0 <= k < 14 :: header[k] == old(header[k])
  {
    PutLE32(header, 14, 40);
    PutLE32(header, 18, w);
    PutLE32(header, 22, h);
    PutLE16(header, 26, 1);
    PutLE16(header, 28, 24);
    PutLE32(header, 34, size);
  }

  /** One image row into the reused row buffer; the padding behind it stays zero. */
  method FillRow(row: array<byte>, rgba: seq<byte>, w: nat, h: nat, y: nat)
    requires y < h && h * (w * 4) <= |rgba|
    requires row.Length == Stride(w) && row[RowBytes(w)..] == Zeros(Pad(w))
    modifies row
    ensures row[..] == BgrRow(rgba, w, h, y, w) + Zeros(Pad(w))
  {
    for x := 0 to w
      invariant row[..x * 3] == BgrRow(rgba, w, h, y, x)
      invariant row[RowBytes(w)..] == Zeros(Pad(w))
    {
      PixelInside(w, h, x, y);
      var px := y * (w * 4) + x * 4;
      row[x * 3] := rgba[px + 2];
      row[x * 3 + 1] := rgba[px + 1];
      row[x * 3 + 2] := rgba[px];
      assert row[..(x + 1) * 3] == row[..x * 3] + [rgba[px + 2], rgba[px + 1], rgba[px]];
    }
    assert row[..] == row[..RowBytes(w)] + row[RowBytes(w)..];
  }

  /** The rows of the picture, bottom-up, through one row buffer. */
  method WriteRows(rgba: seq<byte>, w: nat, h: nat) returns (rows: seq<byte>)
    requires h * (w * 4) <= |rgba|
    ensures rows == FileRows(rgba, w, h, h)
  {
    rows := [];
    var row := new byte[Stride(w)](_ => 0);
    assert row[RowBytes(w)..] == Zeros(Pad(w));
    for line := 0 to h
      invariant row[RowBytes(w)..] == Zeros(Pad(w))
      invariant rows == FileRows(rgba, w, h, line)
    {
      FillRow(row, rgba, w, h, h - 1 - line);
      rows := rows + row[..];
      assert row[RowBytes(w)..] == row[..][RowBytes(w)..];
    }
  }

  /** The size arithmetic is the machine's; the checks make it exact. */
  method CheckSizes(w: nat, h: nat, have: nat) returns (ok: bool, imageSize: nat)
    requires 0 < w < 0x8000_0000 && 0 < h < 0x8000_0000
    ensures ok <==> h * (w * 4) <= have && PictureSize(w, h) <= 0xffff_ffff - 54
    ensures ok ==> imageSize == PictureSize(w, h)
  {
    SizesAreExact(w, h, w * h * 4, PictureSize(w, h));
    var needed := w * h * 4 % SIZE_T;
    imageSize := PictureSize(w, h) % SIZE_T;
    var wrapped := needed / 4 / h != w;
    ok := !(wrapped || have < needed) && !(imageSize > 0xffff_ffff - 54);
  }

  method WriteBMP(rgba: seq<byte>, width: int32, height: int32) returns (ok: bool, file: seq<byte>)
    ensures ok <==> Writable(rgba, width, height)
    ensures ok ==> IsBmpOf(file, rgba, width, height)
  {
    if width <= 0 || height <= 0 {
      return false, [];
    }
    var imageSize;
    ok, imageSize := CheckSizes(width, height, |rgba|);
    if !ok {
      return false, [];
    }
    var header := MakeHeader(width, height, imageSize);
    var rows := WriteRows(rgba, width, height);
    file := header[..] + rows;
    assert file[..54] == header[..] && file[54..] == rows;
  }

  lemma SizesAreExact(w: nat, h: nat, needed: nat, size: nat)
    requires 0 < w < 0x8000_0000 && 0 < h < 0x8000_0000 && needed == w * h * 4 && size == PictureSize(w, h)
    ensures needed % SIZE_T == needed == h * (w * 4) && needed / 4 / h == w
    ensures size % SIZE_T == size
  {
    Product(w, h, 0x7fff_ffff, 0x7fff_ffff);
    assert needed / 4 == w * h;
    DivMod(w * h, h, w, 0);
    Reassociate(h, w, 4);
    assert Stride(w) <= 3 * 0x8000_0000;
    Product(Stride(w), h, 3 * 0x8000_0000, 0x7fff_ffff);
  }

  // ------------------------------------------------------------------ the read file

  datatype Image = Image(width: int, height: int, rgba: seq<byte>)

  predicate Valid(img: Image) {
    img.width > 0 && img.height > 0 && |img.rgba| == img.height * (img.width * 4)
  }

  datatype Refusal = NotBmp | NotPlain | BadDepth | Truncated

  /** Where a readable file keeps its pixels. */
  datatype Layout = Layout(offset: nat, width: nat, height: nat, pixelBytes: nat, topDown: bool)

  datatype Parsed = No(why: Refusal) | Yes(layout: Layout)

  datatype ReadResult = Refused(why: Refusal) | Loaded(image: Image)

  function LineBytes(l: Layout): nat { l.width * l.pixelBytes }

  /** The row length rounded up to four bytes. */
  function LineStride(l: Layout): nat { (LineBytes(l) + 3) / 4 * 4 }

  function Need(l: Layout): int {
    l.offset + LineStride(l) * (l.height - 1) + LineBytes(l)
  }

  /** The header checks, in the reader's order, with exact arithmetic. */
  function ParseHeader(bytes: seq<byte>): Parsed {
    if |bytes| < 54 || bytes[0] != 'B' as int || bytes[1] != 'M' as int then No(NotBmp)
    else
      var width, rawHeight := AsInt32(GetLE32(bytes, 18)), AsInt32(GetLE32(bytes, 22));
      var bpp := GetLE16(bytes, 28);
      if GetLE32(bytes, 14) < 40 || width <= 0 || rawHeight == 0 || GetLE16(bytes, 26) != 1 then No(NotPlain)
      else if bpp != 24 && bpp != 32 then No(BadDepth)
      else if rawHeight == -0x8000_0000 then No(Truncated)
      else
        var l := Layout(GetLE32(bytes, 10), width, if rawHeight < 0 then -rawHeight else rawHeight, bpp / 8, rawHeight < 0);
        if Need(l) > |bytes| then No(Truncated) else Yes(l)
  }

  predicate Sound(bytes: seq<byte>, l: Layout) {
    l.width > 0 && l.height > 0 && (l.pixelBytes == 3 || l.pixelBytes == 4) && Need(l) <= |bytes|
  }

  function SourceLine(l: Layout, y: nat): nat
    requires y < l.height
  {
    if l.topDown then y else l.height - 1 - y
  }

  /** Every pixel the reader asks for lies inside the file. */
  lemma SourceInside(bytes: seq<byte>, l: Layout, y: nat, x: nat)
    requires Sound(bytes, l) && y < l.height && x < l.width
    ensures 0 <= l.offset + SourceLine(l, y) * LineStride(l) + x * l.pixelBytes
    ensures l.offset + SourceLine(l, y) * LineStride(l) + x * l.pixelBytes + l.pixelBytes <= |bytes|
  {
    Product(SourceLine(l, y), LineStride(l), l.height - 1, LineStride(l));
    Product(x + 1, l.pixelBytes, l.width, l.pixelBytes);
    Product(0, 0, x, l.pixelBytes);
  }

  function PixelAt(bytes: seq<byte>, l: Layout, y: nat, x: nat): (pixel: seq<byte>)
    requires Sound(bytes, l) && y < l.height && x < l.width
    ensures |pixel| == 4
  {
    SourceInside(bytes, l, y, x);
    var src := l.offset + SourceLine(l, y) * LineStride(l) + x * l.pixelBytes;
    [bytes[src + 2], bytes[src + 1], bytes[src], if l.pixelBytes == 4 then bytes[src + 3] else 255]
  }

  /** The first `x` pixels of image row `y` as the reader takes them. */
  function ReadRow(bytes: seq<byte>, l: Layout, y: nat, x: nat): (row: seq<byte>)
    requires Sound(bytes, l) && y < l.height && x <= l.width
    ensures |row| == x * 4
  {
    if x == 0 then [] else ReadRow(bytes, l, y, x - 1) + PixelAt(bytes, l, y, x - 1)
  }

  function ReadRows(bytes: seq<byte>, l: Layout, y: nat): (rows: seq<byte>)
    requires Sound(bytes, l) && y <= l.height
    ensures |rows| == y * (l.width * 4)
  {
    if y == 0 then [] else ReadRows(bytes, l, y - 1) + ReadRow(bytes, l, y - 1, l.width)
  }

  function ReadImage(bytes: seq<byte>): ReadResult {
    match ParseHeader(bytes)
    case No(why) => Refused(why)
    case Yes(l) => Loaded(Image(l.width, l.height, ReadRows(bytes, l, l.height)))
  }

  /** The image buffer, filled in place row by row. */
  method FillImage(bytes: seq<byte>, l: Layout) returns (rgba: array<byte>)
    requires Sound(bytes, l)
    ensures fresh(rgba) && rgba[..] == ReadRows(bytes, l, l.height)
  {
    Product(0, 0, l.height, l.width * 4);
    rgba := new byte[l.height * (l.width * 4)](_ => 255);
    for y := 0 to l.height
      invariant y * (l.width * 4) <= rgba.Length
      invariant rgba[..y * (l.width * 4)] == ReadRows(bytes, l, y)
      invariant forall k | y * (l.width * 4) <= k < rgba.Length :: rgba[k] == 255
    {
      Product(y + 1, l.width * 4, l.height, l.width * 4);
      Distribute(y, l.width * 4);
      FillLine(bytes, l, y, rgba, y * (l.width * 4));
    }
  }

  method FillLine(bytes: seq<byte>, l: Layout, y: nat, rgba: array<byte>, base: nat)
    requires Sound(bytes, l) && y < l.height && base + l.width * 4 <= rgba.Length
    requires forall k | base <= k < rgba.Length :: rgba[k] == 255
    modifies rgba
    ensures rgba[..base + l.width * 4] == old(rgba[..base]) + ReadRow(bytes, l, y, l.width)
    ensures forall k | base + l.width * 4 <= k < rgba.Length :: rgba[k] == 255
  {
    ghost var before := rgba[..base];
    for x: nat := 0 to l.width
      invariant rgba[..base + x * 4] == before + ReadRow(bytes, l, y, x)
      invariant forall k | base + x * 4 <= k < rgba.Length :: rgba[k] == 255
    {
      SourceInside(bytes, l, y, x);
      var src := l.offset + SourceLine(l, y) * LineStride(l) + x * l.pixelBytes;
      FillPixel(bytes, src, l.pixelBytes, rgba, base + x * 4);
      assert before + (ReadRow(bytes, l, y, x) + PixelAt(bytes, l, y, x)) == (before + ReadRow(bytes, l, y, x)) + PixelAt(bytes, l, y, x);
    }
  }

  method FillPixel(bytes: seq<byte>, src: nat, pixelBytes: nat, rgba: array<byte>, dst: nat)
    requires (pixelBytes == 3 || pixelBytes == 4) && src + pixelBytes <= |bytes| && dst + 4 <= rgba.Length
    requires rgba[dst + 3] == 255
    modifies rgba
    ensures rgba[..dst + 4] == old(rgba[..dst])
            + [bytes[src + 2], bytes[src + 1], bytes[src], if pixelBytes == 4 then bytes[src + 3] else 255]
    ensures forall k | dst + 4 <= k < rgba.Length :: rgba[k] == old(rgba[k])
  {
    rgba[dst] := bytes[src + 2];
    rgba[dst + 1] := bytes[src + 1];
    rgba[dst + 2] := bytes[src];
    if pixelBytes == 4 {
      rgba[dst + 3] := bytes[src + 3];
    }
  }

  /** The bytes a file must have, in the machine's own arithmetic. */
  function MachineNeed(l: Layout): int {
    (l.offset + LineStride(l) * (l.height - 1) % SIZE_T + LineBytes(l) % SIZE_T) % SIZE_T
  }

  /** It never wraps: no header makes a truncated file look complete. */
  lemma NeedIsExact(l: Layout)
    requires 0 < l.width < 0x8000_0000 && 0 < l.height < 0x8000_0000 && l.offset < 0x1_0000_0000
    requires l.pixelBytes == 3 || l.pixelBytes == 4
    ensures MachineNeed(l) == Need(l)
  {
    Product(l.width, l.pixelBytes, 0x7fff_ffff, 4);
    SmallNeed(l.offset, LineStride(l), l.height - 1, LineBytes(l));
  }

  lemma SmallNeed(offset: nat, stride: nat, lines: nat, line: nat)
    requires offset < 0x1_0000_0000 && stride <= 4 * 0x7fff_ffff && lines <= 0x7fff_fffe && line <= 4 * 0x7fff_ffff
    ensures (offset + stride * lines % SIZE_T + line % SIZE_T) % SIZE_T == offset + stride * lines + line
  {
    Product(stride, lines, 4 * 0x7fff_ffff, 0x7fff_fffe);
    SmallSum(offset, stride * lines, line);
  }

  lemma SmallSum(a: nat, b: nat, c: nat)
    requires a + b + c < SIZE_T
    ensures (a + b % SIZE_T + c % SIZE_T) % SIZE_T == a + b + c
  {
  }

  method ReadBMPImage(bytes: seq<byte>) returns (result: ReadResult)
    ensures result == ReadImage(bytes)
  {
    if |bytes| < 54 || bytes[0] != 'B' as int || bytes[1] != 'M' as int {
      return Refused(NotBmp);
    }
    var dataOffset := GetLE32(bytes, 10);
    var headerSize := GetLE32(bytes, 14);
    var width := AsInt32(GetLE32(bytes, 18));
    var rawHeight := AsInt32(GetLE32(bytes, 22));
    var planes := GetLE16(bytes, 26);
    var bpp := GetLE16(bytes, 28);
    if headerSize < 40 || width <= 0 || rawHeight == 0 || planes != 1 {
      return Refused(NotPlain);
    }
    if bpp != 24 && bpp != 32 {
      return Refused(BadDepth);
    }
    // The most negative height has no positive counterpart: it stays negative and is refused.
    if rawHeight == -0x8000_0000 {
      return Refused(Truncated);
    }
    var l := Layout(dataOffset, width, if rawHeight < 0 then -rawHeight else rawHeight, bpp / 8, rawHeight < 0);
    NeedIsExact(l);
    if MachineNeed(l) > |bytes| {
      return Refused(Truncated);
    }
    var rgba := FillImage(bytes, l);
    result := Loaded(Image(l.width, l.height, rgba[..]));
  }

  /** Whatever the file, a loaded image is a valid one. */
  lemma LoadedIsValid(bytes: seq<byte>)
    requires ReadImage(bytes).Loaded?
    ensures Valid(ReadImage(bytes).image)
  {
    var l := ParseHeader(bytes).layout;
    assert Sound(bytes, l);
  }

  // ------------------------------------------------------------------ writing, then reading

  /** An image without its transparency: what a 24-bit file can keep. */
  function Opaque(rgba: seq<byte>): (solid: seq<byte>)
    ensures |solid| == |rgba|
  {
    seq(|rgba|, i requires 0 <= i < |rgba| => if i % 4 == 3 then 255 else rgba[i])
  }

  lemma StrideAgrees(w: nat)
    ensures Stride(w) == (RowBytes(w) + 3) / 4 * 4
  {
    var q, r := RowBytes(w) / 4, RowBytes(w) % 4;
    DivMod(RowBytes(w), 4, q, r);
    if r == 0 {
      DivMod(RowBytes(w) + 3, 4, q, 3);
    } else {
      DivMod(RowBytes(w) + 3, 4, q + 1, r - 1);
    }
  }

  lemma HeaderReadsBack(file: seq<byte>, rgba: seq<byte>, w: int32, h: int32)
    requires Writable(rgba, w, h) && IsBmpOf(file, rgba, w, h)
    ensures GetLE32(file, 10) == 54 && GetLE32(file, 14) == 40 && GetLE32(file, 18) == w && GetLE32(file, 22) == h
    ensures GetLE16(file, 26) == 1 && GetLE16(file, 28) == 24
    ensures file[0] == 'B' as int && file[1] == 'M' as int && |file| == 54 + PictureSize(w, h)
  {
    var header := file[..54];
    assert header[0] == file[0] && header[1] == file[1];
    assert file[10..14] == header[10..14] && file[14..18] == header[14..18];
    assert file[18..22] == header[18..22] && file[22..26] == header[22..26];
    assert file[26..28] == header[26..28] && file[28..30] == header[28..30];
    FieldReadsBack(file, 10, 54);
    FieldReadsBack(file, 14, 40);
    FieldReadsBack(file, 18, w);
    FieldReadsBack(file, 22, h);
    ShortFieldReadsBack(file, 26, 1);
    ShortFieldReadsBack(file, 28, 24);
    assert |file| == 54 + |file[54..]|;
    assert h * Stride(w) == Stride(w) * h;
  }

  /** The writer's rows are exactly as long as the reader needs them to be. */
  lemma WrittenIsEnough(w: nat, h: nat)
    requires h > 0
    ensures Need(Layout(54, w, h, 3, false)) <= 54 + PictureSize(w, h)
  {
    StrideAgrees(w);
    var l := Layout(54, w, h, 3, false);
    assert LineStride(l) == Stride(w) && LineBytes(l) == RowBytes(w) <= Stride(w);
    Distribute(h - 1, Stride(w));
  }

  lemma LayoutReadsBack(file: seq<byte>, rgba: seq<byte>, w: int32, h: int32)
    requires Writable(rgba, w, h) && IsBmpOf(file, rgba, w, h)
    ensures ParseHeader(file) == Yes(Layout(54, w, h, 3, false))
  {
    HeaderReadsBack(file, rgba, w, h);
    WrittenIsEnough(w, h);
  }

  lemma {:induction false} BgrRowAt(rgba: seq<byte>, w: nat, h: nat, y: nat, x: nat, at: nat)
    requires at < x <= w && y < h && h * (w * 4) <= |rgba|
    ensures 0 <= y * (w * 4) && y * (w * 4) + at * 4 + 4 <= |rgba|
    ensures var px := y * (w * 4) + at * 4;
            BgrRow(rgba, w, h, y, x)[at * 3..at * 3 + 3] == [rgba[px + 2], rgba[px + 1], rgba[px]]
  {
    PixelInside(w, h, at, y);
    if at < x - 1 {
      BgrRowAt(rgba, w, h, y, x - 1, at);
      assert BgrRow(rgba, w, h, y, x)[at * 3..at * 3 + 3] == BgrRow(rgba, w, h, y, x - 1)[at * 3..at * 3 + 3];
    }
  }

  /** File row `line` is image row `h - 1 - line`. */
  lemma {:induction false} FileRowAt(rgba: seq<byte>, w: nat, h: nat, lines: nat, line: nat)
    requires line < lines <= h && h * (w * 4) <= |rgba|
    ensures 0 <= line * Stride(w) && line * Stride(w) + RowBytes(w) <= lines * Stride(w)
    ensures FileRows(rgba, w, h, lines)[line * Stride(w)..line * Stride(w) + RowBytes(w)]
            == BgrRow(rgba, w, h, h - 1 - line, w)
  {
    Product(0, 0, line, Stride(w));
    assert (lines - 1) * Stride(w) + Stride(w) == lines * Stride(w);
    var rows := FileRows(rgba, w, h, lines);
    var before := FileRows(rgba, w, h, lines - 1);
    if line < lines - 1 {
      FileRowAt(rgba, w, h, lines - 1, line);
      assert rows[line * Stride(w)..line * Stride(w) + RowBytes(w)]
             == before[line * Stride(w)..line * Stride(w) + RowBytes(w)];
    } else {
      var row := BgrRow(rgba, w, h, h - lines, w);
      assert rows == before + (row + Zeros(Pad(w)));
      assert rows[|before|..|before| + RowBytes(w)] == row;
    }
  }

  /** The file behind its header: what the pixels are read from. */
  predicate Holds(file: seq<byte>, rgba: seq<byte>, w: nat, h: nat)
    requires h * (w * 4) <= |rgba|
  {
    |file| >= 54 && file[54..] == FileRows(rgba, w, h, h) && Sound(file, Layout(54, w, h, 3, false))
  }

  /** Colour `c` of file row `line`, column `x`, lies where the writer put it. */
  lemma FileByteAt(file: seq<byte>, rgba: seq<byte>, w: nat, h: nat, line: nat, x: nat, c: nat, at: nat)
    requires h * (w * 4) <= |rgba| && Holds(file, rgba, w, h)
    requires line < h && x < w && c < 3 && at == line * Stride(w) + x * 3 + c
    ensures 54 + at < |file| && x * 3 + c < w * 3 && file[54 + at] == BgrRow(rgba, w, h, h - 1 - line, w)[x * 3 + c]
  {
    FileRowAt(rgba, w, h, h, line);
    var start := line * Stride(w);
    assert file[54 + at] == file[54..][at] == file[54..][start..start + RowBytes(w)][x * 3 + c];
  }

  /** The pixel the reader takes is the pixel the writer put there, opaque. */
  lemma PixelReadsBack(file: seq<byte>, rgba: seq<byte>, w: nat, h: nat, y: nat, x: nat, px: nat)
    requires h * (w * 4) <= |rgba| && Holds(file, rgba, w, h)
    requires y < h && x < w && px == y * (w * 4) + x * 4
    ensures px + 4 <= |rgba|
    ensures PixelAt(file, Layout(54, w, h, 3, false), y, x) == [rgba[px], rgba[px + 1], rgba[px + 2], 255]
  {
    var l, line := Layout(54, w, h, 3, false), h - 1 - y;
    StrideAgrees(w);
    Product(0, 0, line, Stride(w));
    var at := line * Stride(w) + x * 3;
    FileBytesAt(file, rgba, w, h, line, x, at);
    BgrBytes(rgba, w, h, y, x, px);
    PixelOf(file, l, y, x, 54 + at);
  }

  lemma FileBytesAt(file: seq<byte>, rgba: seq<byte>, w: nat, h: nat, line: nat, x: nat, at: nat)
    requires h * (w * 4) <= |rgba| && Holds(file, rgba, w, h)
    requires line < h && x < w && at == line * Stride(w) + x * 3
    ensures 54 + at + 3 <= |file|
    ensures var row := BgrRow(rgba, w, h, h - 1 - line, w);
            file[54 + at] == row[x * 3] && file[54 + at + 1] == row[x * 3 + 1] && file[54 + at + 2] == row[x * 3 + 2]
  {
    FileByteAt(file, rgba, w, h, line, x, 0, at);
    FileByteAt(file, rgba, w, h, line, x, 1, at + 1);
    FileByteAt(file, rgba, w, h, line, x, 2, at + 2);
  }

  lemma BgrBytes(rgba: seq<byte>, w: nat, h: nat, y: nat, x: nat, px: nat)
    requires h * (w * 4) <= |rgba| && y < h && x < w && px == y * (w * 4) + x * 4
    ensures px + 4 <= |rgba|
    ensures var row := BgrRow(rgba, w, h, y, w);
            row[x * 3] == rgba[px + 2] && row[x * 3 + 1] == rgba[px + 1] && row[x * 3 + 2] == rgba[px]
  {
    BgrRowAt(rgba, w, h, y, w, x);
    var row := BgrRow(rgba, w, h, y, w);
    var three := row[x * 3..x * 3 + 3];
    assert three[0] == row[x * 3] && three[1] == row[x * 3 + 1] && three[2] == row[x * 3 + 2];
  }

  lemma PixelOf(bytes: seq<byte>, l: Layout, y: nat, x: nat, src: nat)
    requires Sound(bytes, l) && l.pixelBytes == 3 && y < l.height && x < l.width
    requires src == l.offset + SourceLine(l, y) * LineStride(l) + x * 3
    ensures src + 3 <= |bytes| && PixelAt(bytes, l, y, x) == [bytes[src + 2], bytes[src + 1], bytes[src], 255]
  {
    SourceInside(bytes, l, y, x);
  }

  lemma OpaquePixel(rgba: seq<byte>, px: nat, quarter: nat)
    requires px == 4 * quarter && px + 4 <= |rgba|
    ensures Opaque(rgba)[px..px + 4] == [rgba[px], rgba[px + 1], rgba[px + 2], 255]
  {
  }

  lemma {:induction false} RowReadsBack(file: seq<byte>, rgba: seq<byte>, w: nat, h: nat, y: nat, x: nat, base: nat,
                                        quarter: nat)
    requires h * (w * 4) <= |rgba| && Holds(file, rgba, w, h)
    requires y < h && x <= w && base == y * (w * 4) == 4 * quarter && base + w * 4 <= |rgba|
    ensures ReadRow(file, Layout(54, w, h, 3, false), y, x) == Opaque(rgba)[base..base + x * 4]
  {
    if x > 0 {
      var px := base + (x - 1) * 4;
      RowReadsBack(file, rgba, w, h, y, x - 1, base, quarter);
      PixelReadsBack(file, rgba, w, h, y, x - 1, px);
      OpaquePixel(rgba, px, quarter + x - 1);
      assert Opaque(rgba)[base..base + x * 4] == Opaque(rgba)[base..px] + Opaque(rgba)[px..px + 4];
    }
  }

  lemma RowStart(w: nat, h: nat, y: nat)
    requires y < h
    ensures 0 <= y * (w * 4) && y * (w * 4) == 4 * (y * w) && 0 <= y * w && y * (w * 4) + w * 4 <= h * (w * 4)
    ensures (y + 1) * (w * 4) == y * (w * 4) + w * 4
  {
    Product(0, 0, y, w);
    Product(y + 1, w * 4, h, w * 4);
    Regroup(w, y);
  }

  lemma {:induction false} RowsReadBack(file: seq<byte>, rgba: seq<byte>, w: nat, h: nat, y: nat)
    requires h * (w * 4) <= |rgba| && Holds(file, rgba, w, h) && y <= h
    ensures 0 <= y * (w * 4) <= |rgba|
    ensures ReadRows(file, Layout(54, w, h, 3, false), y) == Opaque(rgba)[..y * (w * 4)]
  {
    if y > 0 {
      RowStart(w, h, y - 1);
      RowsReadBack(file, rgba, w, h, y - 1);
      var base := (y - 1) * (w * 4);
      RowReadsBack(file, rgba, w, h, y - 1, w, base, (y - 1) * w);
      assert Opaque(rgba)[..base + w * 4] == Opaque(rgba)[..base] + Opaque(rgba)[base..base + w * 4];
    }
  }

  /** A written image is read back with its size and its colours, every pixel opaque. */
  lemma ImageRoundTrip(img: Image, file: seq<byte>)
    requires Valid(img) && img.width < 0x8000_0000 && img.height < 0x8000_0000
    requires Writable(img.rgba, img.width, img.height) && IsBmpOf(file, img.rgba, img.width, img.height)
    ensures ReadImage(file) == Loaded(Image(img.width, img.height, Opaque(img.rgba)))
  {
    LayoutReadsBack(file, img.rgba, img.width, img.height);
    RowsReadBack(file, img.rgba, img.width, img.height, img.height);
  }

  // ------------------------------------------------------------------ where the bytes are

  /** The fields of a file have their least byte first. */
  lemma LeastByteFirst(short: int, value: uint32)
    requires 0 <= short < 0x1_0000
    ensures var b0: int, b1: int := LE16(short)[0], LE16(short)[1]; b0 + 0x100 * b1 == short
    ensures var b0: int, b1: int, b2: int, b3: int := LE32(value)[0], LE32(value)[1], LE32(value)[2], LE32(value)[3];
            b0 + 0x100 * b1 + 0x1_0000 * b2 + 0x100_0000 * b3 == value
  {
    LE32Value(value);
  }

  /** A field read as signed: the same number, but for whole 32-bit words. */
  lemma SignedField(value: uint32)
    ensures (value - AsInt32(value)) % 0x1_0000_0000 == 0
  {
  }

  /** Where a written pixel is: in the file's row `line`, the bottom row first, blue first, in rows of three bytes a
      pixel rounded up to four. */
  lemma PixelIsWritten(file: seq<byte>, rgba: seq<byte>, w: int32, h: int32, x: nat, y: nat, stride: nat, line: nat, at: nat,
                       px: nat)
    requires Writable(rgba, w, h) && IsBmpOf(file, rgba, w, h) && x < w && y < h
    requires stride == (w * 3 + 3) / 4 * 4 && line == h - 1 - y
    requires at == line * stride + x * 3 && px == y * (w * 4) + x * 4
    ensures 54 + at + 3 <= |file| && px + 4 <= |rgba|
    ensures file[54 + at] == rgba[px + 2] && file[54 + at + 1] == rgba[px + 1] && file[54 + at + 2] == rgba[px]
  {
    WrittenHolds(file, rgba, w, h);
    StrideAgrees(w);
    FileBytesAt(file, rgba, w, h, line, x, at);
    BgrBytes(rgba, w, h, y, x, px);
  }

  lemma WrittenHolds(file: seq<byte>, rgba: seq<byte>, w: int32, h: int32)
    requires Writable(rgba, w, h) && IsBmpOf(file, rgba, w, h)
    ensures Holds(file, rgba, w, h)
  {
    LayoutReadsBack(file, rgba, w, h);
  }

  lemma {:induction false} RowIsRead(bytes: seq<byte>, l: Layout, y: nat, x: nat, at: nat)
    requires Sound(bytes, l) && y < l.height && at < x <= l.width
    ensures ReadRow(bytes, l, y, x)[at * 4..at * 4 + 4] == PixelAt(bytes, l, y, at)
  {
    if at < x - 1 {
      RowIsRead(bytes, l, y, x - 1, at);
      SliceOfFirst(ReadRow(bytes, l, y, x - 1), PixelAt(bytes, l, y, x - 1), at * 4);
    } else {
      SliceOfLast(ReadRow(bytes, l, y, x - 1), PixelAt(bytes, l, y, x - 1));
    }
  }

  lemma SliceOfFirst(a: seq<byte>, b: seq<byte>, at: nat)
    requires at + 4 <= |a|
    ensures (a + b)[at..at + 4] == a[at..at + 4]
  {
  }

  lemma SliceOfLast(a: seq<byte>, b: seq<byte>)
    ensures (a + b)[|a|..|a| + |b|] == b
  {
  }

  lemma {:induction false} RowsAreRead(bytes: seq<byte>, l: Layout, lines: nat, y: nat, x: nat, px: nat)
    requires Sound(bytes, l) && y < lines <= l.height && x < l.width && px == y * (l.width * 4) + x * 4
    ensures px + 4 <= lines * (l.width * 4) && ReadRows(bytes, l, lines)[px..px + 4] == PixelAt(bytes, l, y, x)
  {
    PixelInside(l.width, lines, x, y);
    var before, row := ReadRows(bytes, l, lines - 1), ReadRow(bytes, l, lines - 1, l.width);
    if y < lines - 1 {
      RowsAreRead(bytes, l, lines - 1, y, x, px);
      SliceOfFirst(before, row, px);
    } else {
      RowIsRead(bytes, l, y, l.width, x);
      SliceBehind(before, row, x * 4);
    }
  }

  lemma SliceBehind(a: seq<byte>, b: seq<byte>, at: nat)
    requires at + 4 <= |b|
    ensures (a + b)[|a| + at..|a| + at + 4] == b[at..at + 4]
  {
  }

  /** What a loaded file's header says: the size, a negative height for rows from the top, three or four bytes a pixel. */
  lemma HeaderIsRead(bytes: seq<byte>)
    requires ReadImage(bytes).Loaded?
    ensures |bytes| >= 54 && bytes[0] == 0x42 && bytes[1] == 0x4d
    ensures var img, rawHeight := ReadImage(bytes).image, AsInt32(GetLE32(bytes, 22));
            && img.width == AsInt32(GetLE32(bytes, 18)) > 0 && img.height == (if rawHeight < 0 then -rawHeight else rawHeight)
            && ParseHeader(bytes)
               == Yes(Layout(GetLE32(bytes, 10), img.width, img.height, if GetLE16(bytes, 28) == 24 then 3 else 4, rawHeight < 0))
            && (GetLE16(bytes, 28) == 24 || GetLE16(bytes, 28) == 32) && GetLE16(bytes, 26) == 1 && GetLE32(bytes, 14) >= 40
  {
  }

  /** Where a pixel is read from, for any file that is loaded: from its row, which is the same row counted from the top
      or from the bottom, blue first, rows rounded up to four bytes, opaque without a fourth byte. */
  lemma PixelIsRead(bytes: seq<byte>, l: Layout, x: nat, y: nat, line: nat, stride: nat, src: nat, px: nat)
    requires ParseHeader(bytes) == Yes(l) && x < l.width && y < l.height
    requires line == (if l.topDown then y else l.height - 1 - y) && stride == (l.width * l.pixelBytes + 3) / 4 * 4
    requires src == l.offset + line * stride + x * l.pixelBytes && px == y * (l.width * 4) + x * 4
    ensures ReadImage(bytes).Loaded? && px + 4 <= |ReadImage(bytes).image.rgba| && src + l.pixelBytes <= |bytes|
    ensures ReadImage(bytes).image.rgba[px..px + 4]
            == [bytes[src + 2], bytes[src + 1], bytes[src], if l.pixelBytes == 4 then bytes[src + 3] else 255]
  {
    PixelInside(l.width, l.height, x, y);
    SourceInside(bytes, l, y, x);
    RowsAreRead(bytes, l, l.height, y, x, px);
  }
}
