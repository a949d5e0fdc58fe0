/** Contact sheets: tiles copied into the cells of a grid (src/cpp/image.cpp). */
module Montage {
  import opened Basics
  import opened Arithmetic
  import opened Bmp

  // ------------------------------------------------------------------ rows and pixels of a buffer

  /** Row `y` of a buffer whose rows are `line` bytes. */
  function RowAt(bytes: seq<byte>, line: nat, y: nat): (row: seq<byte>)
    requires 0 <= y * line && y * line + line <= |bytes|
    ensures |row| == line
  {
    bytes[y * line..y * line + line]
  }

  function PixelIn(row: seq<byte>, x: nat): seq<byte>
    requires x * 4 + 4 <= |row|
  {
    row[x * 4..x * 4 + 4]
  }

  function Splice(row: seq<byte>, at: nat, piece: seq<byte>): (spliced: seq<byte>)
    requires at + |piece| <= |row|
    ensures |spliced| == |row|
  {
    row[..at] + piece + row[at + |piece|..]
  }

  lemma RowInside(line: nat, height: nat, y: nat)
    requires y < height
    ensures 0 <= y * line && y * line + line <= height * line
  {
    Product(0, 0, y, line);
    Product(y + 1, line, height, line);
  }

  lemma RowsApart(line: nat, y: nat, z: nat)
    requires y < z
    ensures 0 <= y * line && y * line + line <= z * line
  {
    RowInside(line, z, y);
  }

  lemma SplicedPixel(row: seq<byte>, left: nat, piece: seq<byte>, n: nat, x: nat)
    requires |piece| == n * 4 && left * 4 + n * 4 <= |row| && x * 4 + 4 <= |row|
    ensures PixelIn(Splice(row, left * 4, piece), x)
            == if left <= x < left + n then PixelIn(piece, x - left) else PixelIn(row, x)
  {
    SpliceSlice(row, left * 4, piece, x * 4, x * 4 + 4);
  }

  /** A slice of a spliced row that lies on one side of the piece's edges. */
  lemma SpliceSlice(row: seq<byte>, at: nat, piece: seq<byte>, from: nat, upto: nat)
    requires at + |piece| <= |row| && from <= upto <= |row|
    ensures upto <= at || at + |piece| <= from ==> Splice(row, at, piece)[from..upto] == row[from..upto]
    ensures at <= from && upto <= at + |piece| ==> Splice(row, at, piece)[from..upto] == piece[from - at..upto - at]
  {
    var all := Splice(row, at, piece);
    if upto <= at || at + |piece| <= from {
      forall k | from <= k < upto ensures all[k] == row[k] {
      }
    } else if at <= from && upto <= at + |piece| {
      forall k | from <= k < upto ensures all[k] == piece[k - at] {
      }
    }
  }

  // ------------------------------------------------------------------ copying one tile

  /** `n` bytes of `src` into `dst`. */
  method Copy(dst: array<byte>, at: nat, src: seq<byte>, start: nat, n: nat)
    requires at + n <= dst.Length && start + n <= |src|
    modifies dst
    ensures dst[at..at + n] == src[start..start + n]
    ensures forall k | 0 <= k < dst.Length && !(at <= k < at + n) :: dst[k] == old(dst[k])
  {
    for k := 0 to n
      invariant dst[at..at + k] == src[start..start + k]
      invariant forall j | 0 <= j < dst.Length && !(at <= j < at + k) :: dst[j] == old(dst[j])
    {
      dst[at + k] := src[start + k];
      assert dst[at..at + k + 1] == dst[at..at + k] + [src[start + k]];
    }
  }

  lemma Kept(before: seq<byte>, after: seq<byte>, from: nat, upto: nat)
    requires |before| == |after| && from <= upto <= |before|
    requires forall k | from <= k < upto :: after[k] == before[k]
    ensures after[from..upto] == before[from..upto]
  {
  }

  lemma ThreeParts(s: seq<byte>, a: nat, b: nat, c: nat, d: nat)
    requires a <= b <= c <= d <= |s|
    ensures s[a..d] == s[a..b] + s[b..c] + s[c..d]
  {
  }

  lemma Spliced(before: seq<byte>, after: seq<byte>, start: nat, line: nat, left: nat, piece: seq<byte>)
    requires |before| == |after| && start + line <= |before| && left + |piece| <= line
    requires after[start + left..start + left + |piece|] == piece
    requires after[start..start + left] == before[start..start + left]
    requires after[start + left + |piece|..start + line] == before[start + left + |piece|..start + line]
    ensures after[start..start + line] == Splice(before[start..start + line], left, piece)
  {
    var mid, end := start + left, start + left + |piece|;
    var row := before[start..start + line];
    assert row[..left] == before[start..mid] && row[left + |piece|..] == before[end..start + line];
    ThreeParts(after, start, mid, end, start + line);
  }

  /** The buffer after a copy into row `y`: that row spliced, every other row as it was. */
  lemma CopiedRow(before: seq<byte>, after: seq<byte>, line: nat, y: nat, left: nat, piece: seq<byte>, z: nat)
    requires |before| == |after| && 0 <= y * line && y * line + line <= |before| && left + |piece| <= line
    requires after[y * line + left..y * line + left + |piece|] == piece
    requires forall k | 0 <= k < |before| && !(y * line + left <= k < y * line + left + |piece|) :: after[k] == before[k]
    requires 0 <= z * line && z * line + line <= |before|
    ensures RowAt(after, line, z) == if z == y then Splice(RowAt(before, line, z), left, piece) else RowAt(before, line, z)
  {
    if z == y {
      Kept(before, after, y * line, y * line + left);
      Kept(before, after, y * line + left + |piece|, y * line + line);
      Spliced(before, after, y * line, line, left, piece);
    } else {
      if z < y {
        RowsApart(line, z, y);
      } else {
        RowsApart(line, y, z);
      }
      Kept(before, after, z * line, z * line + line);
    }
  }

  /** The sheet's row `y` once the first `h` rows of the tile's top left corner are in. */
  function Blitted(row: seq<byte>, y: nat, cellX: nat, cellY: nat, tile: Image, w: nat, h: nat): (blitted: seq<byte>)
    requires Valid(tile) && w <= tile.width && h <= tile.height && cellX * 4 + w * 4 <= |row|
    ensures |blitted| == |row|
  {
    if cellY <= y < cellY + h then
      RowInside(tile.width * 4, tile.height, y - cellY);
      Splice(row, cellX * 4, RowAt(tile.rgba, tile.width * 4, y - cellY)[..w * 4])
    else row
  }

  /** `n` bytes of `src` into row `y` of the sheet. */
  method CopyIntoRow(sheet: array<byte>, line: nat, height: nat, y: nat, left: nat, src: seq<byte>, start: nat, n: nat)
    requires sheet.Length == height * line && y < height && left + n <= line && start + n <= |src|
    modifies sheet
    ensures RowSpliced(old(sheet[..]), sheet[..], line, height, y, left, src[start..start + n])
  {
    ghost var before := sheet[..];
    ghost var piece := src[start..start + n];
    RowInside(line, height, y);
    var at := y * line + left;
    Copy(sheet, at, src, start, n);
    assert sheet[..][at..at + n] == piece;
    forall z | 0 <= z < height && 0 <= z * line && z * line + line <= sheet.Length
      ensures RowAt(sheet[..], line, z)
              == if z == y then Splice(RowAt(before, line, z), left, piece) else RowAt(before, line, z)
    {
      CopiedRow(before, sheet[..], line, y, left, piece, z);
    }
  }

  /** Every row of the sheet after the first `h` rows of the tile, from the row before. */
  predicate RowsBlitted(before: seq<byte>, after: seq<byte>, line: nat, height: nat, cellX: nat, cellY: nat, tile: Image,
                        w: nat, h: nat)
    requires |before| == |after| == height * line && Valid(tile) && w <= tile.width && h <= tile.height
    requires cellX * 4 + w * 4 <= line
  {
    forall y | 0 <= y < height && 0 <= y * line && y * line + line <= |before| ::
      RowAt(after, line, y) == Blitted(RowAt(before, line, y), y, cellX, cellY, tile, w, h)
  }

  /** Row `y` of the sheet spliced, all others kept. */
  predicate RowSpliced(before: seq<byte>, after: seq<byte>, line: nat, height: nat, y: nat, left: nat, piece: seq<byte>)
    requires |before| == |after| == height * line && left + |piece| <= line
  {
    forall z | 0 <= z < height && 0 <= z * line && z * line + line <= |before| ::
      RowAt(after, line, z)
      == if z == y then Splice(RowAt(before, line, z), left, piece) else RowAt(before, line, z)
  }

  lemma BlittedNext(before: seq<byte>, now: seq<byte>, after: seq<byte>, line: nat, height: nat, cellX: nat, cellY: nat,
                    tile: Image, w: nat, y: nat, piece: seq<byte>)
    requires |before| == |now| == |after| == height * line && Valid(tile) && w <= tile.width && y < tile.height
    requires cellX * 4 + w * 4 <= line && |piece| == w * 4
    requires 0 <= y * (tile.width * 4) && y * (tile.width * 4) + tile.width * 4 <= |tile.rgba|
    requires piece == RowAt(tile.rgba, tile.width * 4, y)[..w * 4]
    requires RowsBlitted(before, now, line, height, cellX, cellY, tile, w, y)
    requires RowSpliced(now, after, line, height, cellY + y, cellX * 4, piece)
    ensures RowsBlitted(before, after, line, height, cellX, cellY, tile, w, y + 1)
  {
    forall z | 0 <= z < height && 0 <= z * line && z * line + line <= |before|
      ensures RowAt(after, line, z) == Blitted(RowAt(before, line, z), z, cellX, cellY, tile, w, y + 1)
    {
      assert RowAt(now, line, z) == Blitted(RowAt(before, line, z), z, cellX, cellY, tile, w, y);
      BlittedMore(RowAt(before, line, z), z, cellX, cellY, tile, w, y, piece);
    }
  }

  lemma BlittedMore(row: seq<byte>, z: nat, cellX: nat, cellY: nat, tile: Image, w: nat, y: nat, piece: seq<byte>)
    requires Valid(tile) && w <= tile.width && y < tile.height && cellX * 4 + w * 4 <= |row| && |piece| == w * 4
    requires 0 <= y * (tile.width * 4) && y * (tile.width * 4) + tile.width * 4 <= |tile.rgba|
    requires piece == RowAt(tile.rgba, tile.width * 4, y)[..w * 4]
    ensures Blitted(row, z, cellX, cellY, tile, w, y + 1)
            == if z == cellY + y then Splice(row, cellX * 4, piece) else Blitted(row, z, cellX, cellY, tile, w, y)
    ensures z == cellY + y ==> Blitted(row, z, cellX, cellY, tile, w, y) == row
  {
  }

  /** The first `n` bytes of a row of a tile. */
  lemma PieceOfRow(tile: Image, y: nat, src: nat, n: nat)
    requires Valid(tile) && y < tile.height && src == y * (tile.width * 4) && n <= tile.width * 4
    ensures src + tile.width * 4 <= |tile.rgba|
    ensures RowAt(tile.rgba, tile.width * 4, y)[..n] == tile.rgba[src..src + n]
  {
    RowInside(tile.width * 4, tile.height, y);
  }

  /** One more row of the tile. */
  method BlitRow(sheet: array<byte>, line: nat, height: nat, cellX: nat, cellY: nat, tile: Image, w: nat, y: nat,
                 ghost before: seq<byte>)
    requires sheet.Length == height * line && Valid(tile) && w <= tile.width && y < tile.height
    requires cellX * 4 + w * 4 <= line && cellY + y < height && |before| == sheet.Length
    requires RowsBlitted(before, sheet[..], line, height, cellX, cellY, tile, w, y)
    modifies sheet
    ensures RowsBlitted(before, sheet[..], line, height, cellX, cellY, tile, w, y + 1)
  {
    ghost var now := sheet[..];
    RowInside(tile.width * 4, tile.height, y);
    var src := y * (tile.width * 4);
    PieceOfRow(tile, y, src, w * 4);
    CopyIntoRow(sheet, line, height, cellY + y, cellX * 4, tile.rgba, src, w * 4);
    BlittedNext(before, now, sheet[..], line, height, cellX, cellY, tile, w, y, tile.rgba[src..src + w * 4]);
  }

  method Blit(sheet: array<byte>, line: nat, height: nat, cellX: nat, cellY: nat, tile: Image, w: nat, h: nat)
    requires sheet.Length == height * line && Valid(tile) && w <= tile.width && h <= tile.height
    requires cellX * 4 + w * 4 <= line && cellY + h <= height
    modifies sheet
    ensures RowsBlitted(old(sheet[..]), sheet[..], line, height, cellX, cellY, tile, w, h)
  {
    ghost var before := sheet[..];
    for y: nat := 0 to h
      invariant RowsBlitted(before, sheet[..], line, height, cellX, cellY, tile, w, y)
    {
      BlitRow(sheet, line, height, cellX, cellY, tile, w, y, before);
    }
  }

  // ------------------------------------------------------------------ the grid

  datatype Grid = Grid(columns: nat, tileWidth: nat, tileHeight: nat, gutter: nat)

  predicate Usable(g: Grid) {
    g.columns > 0 && g.tileWidth > 0 && g.tileHeight > 0
  }

  function RowCount(tiles: nat, columns: nat): nat
    requires columns > 0
  {
    (tiles + columns - 1) / columns
  }

  /** The length of `n` cells with a gutter before each and one behind the last. */
  function Span(n: nat, cell: nat, gutter: nat): int {
    n * cell + (n + 1) * gutter
  }

  /** Where cell `k` starts. */
  function CellStart(k: nat, cell: nat, gutter: nat): int {
    gutter + k * (cell + gutter)
  }

  const BACKGROUND: seq<byte> := [32, 32, 32, 255]

  lemma CellInside(k: nat, n: nat, cell: nat, gutter: nat)
    requires k < n
    ensures 0 <= CellStart(k, cell, gutter) && CellStart(k, cell, gutter) + cell + gutter <= Span(n, cell, gutter)
  {
    Product(0, 0, k, cell + gutter);
    Product(k + 1, cell + gutter, n, cell + gutter);
    assert Span(n, cell, gutter) == n * (cell + gutter) + gutter;
  }

  /** The pixels of cell `k` are those whose distance into the grid says so. */
  lemma CellHolds(k: nat, cell: nat, gutter: nat, w: nat, x: nat)
    requires 0 < cell && w <= cell
    ensures CellStart(k, cell, gutter) <= x < CellStart(k, cell, gutter) + w
            <==> x >= gutter && (x - gutter) / (cell + gutter) == k && (x - gutter) % (cell + gutter) < w
    ensures CellStart(k, cell, gutter) <= x < CellStart(k, cell, gutter) + w
            ==> (x - gutter) % (cell + gutter) == x - CellStart(k, cell, gutter)
  {
    Product(0, 0, k, cell + gutter);
    if x >= gutter {
      InStep(x - gutter, cell + gutter, k, k * (cell + gutter), w);
    }
  }

  /** `n` is less than `w` behind the `k`-th multiple of `d` exactly when dividing says so. */
  lemma InStep(n: nat, d: nat, k: nat, start: nat, w: nat)
    requires 0 < d && w <= d && start == k * d
    ensures start <= n < start + w <==> n / d == k && n % d < w
    ensures start <= n < start + w ==> n % d == n - start
  {
    if start <= n < start + w {
      DivMod(n, d, k, n - start);
    }
    DivMod(n, d, n / d, n % d);
  }

  /** The region of a tile that its cell shows. */
  predicate Shows(tiles: seq<Image>, g: Grid, i: nat, dx: nat, dy: nat)
    requires i < |tiles|
  {
    Valid(tiles[i]) && dx < Least(tiles[i].width, g.tileWidth) && dy < Least(tiles[i].height, g.tileHeight)
  }

  function TilePixel(tile: Image, dx: nat, dy: nat): seq<byte>
    requires Valid(tile) && dx < tile.width && dy < tile.height
  {
    RowInside(tile.width * 4, tile.height, dy);
    PixelIn(RowAt(tile.rgba, tile.width * 4, dy), dx)
  }

  /** Pixel (x, y) of the sheet of the first `n` tiles, from where it lies in the grid. */
  function SheetPixel(tiles: seq<Image>, g: Grid, n: nat, x: nat, y: nat): seq<byte>
    requires Usable(g) && n <= |tiles|
  {
    if x < g.gutter || y < g.gutter then BACKGROUND
    else
      CellPixel(tiles, g, n, OwnerOf(g, x, y), (x - g.gutter) % (g.tileWidth + g.gutter),
                (y - g.gutter) % (g.tileHeight + g.gutter))
  }

  /** What cell `i` has at (dx, dy) once the first `n` tiles are in. */
  function CellPixel(tiles: seq<Image>, g: Grid, n: nat, i: nat, dx: nat, dy: nat): seq<byte>
    requires n <= |tiles|
  {
    if i < n && Shows(tiles, g, i, dx, dy) then TilePixel(tiles[i], dx, dy) else BACKGROUND
  }

  /** The cell that pixel (x, y) of the grid belongs to. */
  function OwnerOf(g: Grid, x: nat, y: nat): nat
    requires Usable(g) && x >= g.gutter && y >= g.gutter
  {
    Product(0, 0, (y - g.gutter) / (g.tileHeight + g.gutter), g.columns);
    (y - g.gutter) / (g.tileHeight + g.gutter) * g.columns + (x - g.gutter) / (g.tileWidth + g.gutter)
  }

  /** Pixel (x, y) lies where tile `i` is copied to. */
  predicate InCell(g: Grid, i: nat, w: nat, h: nat, x: nat, y: nat)
    requires Usable(g)
  {
    CellStart(i % g.columns, g.tileWidth, g.gutter) <= x < CellStart(i % g.columns, g.tileWidth, g.gutter) + w
    && CellStart(i / g.columns, g.tileHeight, g.gutter) <= y < CellStart(i / g.columns, g.tileHeight, g.gutter) + h
  }

  lemma InOwnCell(g: Grid, i: nat, w: nat, h: nat, x: nat, y: nat)
    requires Usable(g) && w <= g.tileWidth && h <= g.tileHeight
    requires x < Span(g.columns, g.tileWidth, g.gutter)
    ensures InCell(g, i, w, h, x, y)
            <==> x >= g.gutter && y >= g.gutter && OwnerOf(g, x, y) == i
                 && (x - g.gutter) % (g.tileWidth + g.gutter) < w && (y - g.gutter) % (g.tileHeight + g.gutter) < h
  {
    CellHolds(i % g.columns, g.tileWidth, g.gutter, w, x);
    CellHolds(i / g.columns, g.tileHeight, g.gutter, h, y);
    if x >= g.gutter && y >= g.gutter {
      ColumnInside(g, x);
      OwnerMeans(g, i, x, y);
    }
  }

  lemma OwnerMeans(g: Grid, i: nat, x: nat, y: nat)
    requires Usable(g) && x >= g.gutter && y >= g.gutter
    requires (x - g.gutter) / (g.tileWidth + g.gutter) < g.columns
    ensures OwnerOf(g, x, y) == i
            <==> (x - g.gutter) / (g.tileWidth + g.gutter) == i % g.columns
                 && (y - g.gutter) / (g.tileHeight + g.gutter) == i / g.columns
  {
    var c, r := (x - g.gutter) / (g.tileWidth + g.gutter), (y - g.gutter) / (g.tileHeight + g.gutter);
    assert OwnerOf(g, x, y) == r * g.columns + c;
    DivMod(i, g.columns, r, c);
  }

  lemma ColumnInside(g: Grid, x: nat)
    requires Usable(g) && g.gutter <= x < Span(g.columns, g.tileWidth, g.gutter)
    ensures (x - g.gutter) / (g.tileWidth + g.gutter) < g.columns
  {
    var pitch := g.tileWidth + g.gutter;
    var c := (x - g.gutter) / pitch;
    assert Span(g.columns, g.tileWidth, g.gutter) == g.columns * pitch + g.gutter;
    if c >= g.columns {
      Product(g.columns, pitch, c, pitch);
    }
  }

  // ------------------------------------------------------------------ the sheet

  predicate Holds(rgba: seq<byte>, width: nat, height: nat, tiles: seq<Image>, g: Grid, n: nat)
    requires Usable(g) && n <= |tiles| && |rgba| == height * (width * 4)
  {
    forall x, y | 0 <= x < width && 0 <= y < height ::
      RowInside(width * 4, height, y);
      PixelIn(RowAt(rgba, width * 4, y), x) == SheetPixel(tiles, g, n, x, y)
  }

  lemma BlittedPixel(row: seq<byte>, x: nat, y: nat, cellX: nat, cellY: nat, tile: Image, w: nat, h: nat)
    requires Valid(tile) && w <= tile.width && h <= tile.height && cellX * 4 + w * 4 <= |row| && x * 4 + 4 <= |row|
    ensures PixelIn(Blitted(row, y, cellX, cellY, tile, w, h), x)
            == if cellX <= x < cellX + w && cellY <= y < cellY + h then TilePixel(tile, x - cellX, y - cellY)
               else PixelIn(row, x)
  {
    if cellY <= y < cellY + h {
      RowInside(tile.width * 4, tile.height, y - cellY);
      var line := RowAt(tile.rgba, tile.width * 4, y - cellY);
      SplicedPixel(row, cellX, line[..w * 4], w, x);
      if cellX <= x < cellX + w {
        assert PixelIn(line[..w * 4], x - cellX) == PixelIn(line, x - cellX);
      }
    }
  }

  /** What the next tile changes: its own corner, in its own cell. */
  lemma SheetPixelNext(x: nat, y: nat, tiles: seq<Image>, g: Grid, i: nat, w: nat, h: nat)
    requires Usable(g) && i < |tiles| && Valid(tiles[i]) && x < Span(g.columns, g.tileWidth, g.gutter)
    requires w == Least(tiles[i].width, g.tileWidth) && h == Least(tiles[i].height, g.tileHeight)
    ensures SheetPixel(tiles, g, i + 1, x, y)
            == if InCell(g, i, w, h, x, y)
               then TilePixel(tiles[i], x - CellStart(i % g.columns, g.tileWidth, g.gutter),
                              y - CellStart(i / g.columns, g.tileHeight, g.gutter))
               else SheetPixel(tiles, g, i, x, y)
  {
    InOwnCell(g, i, w, h, x, y);
    CellHolds(i % g.columns, g.tileWidth, g.gutter, w, x);
    CellHolds(i / g.columns, g.tileHeight, g.gutter, h, y);
  }

  /** One pixel of a row, once the next tile has been copied. */
  lemma NextTile(row: seq<byte>, x: nat, y: nat, tiles: seq<Image>, g: Grid, i: nat, cellX: nat, cellY: nat, w: nat, h: nat)
    requires Usable(g) && i < |tiles| && Valid(tiles[i])
    requires w == Least(tiles[i].width, g.tileWidth) && h == Least(tiles[i].height, g.tileHeight)
    requires cellX == CellStart(i % g.columns, g.tileWidth, g.gutter)
    requires cellY == CellStart(i / g.columns, g.tileHeight, g.gutter)
    requires x * 4 + 4 <= |row| && x < Span(g.columns, g.tileWidth, g.gutter) && cellX * 4 + w * 4 <= |row|
    requires PixelIn(row, x) == SheetPixel(tiles, g, i, x, y)
    ensures PixelIn(Blitted(row, y, cellX, cellY, tiles[i], w, h), x) == SheetPixel(tiles, g, i + 1, x, y)
  {
    SheetPixelNext(x, y, tiles, g, i, w, h);
    BlittedPixel(row, x, y, cellX, cellY, tiles[i], w, h);
  }

  method Background(width: nat, height: nat) returns (sheet: array<byte>)
    ensures fresh(sheet) && sheet.Length == height * (width * 4)
    ensures forall k | 0 <= k < sheet.Length :: sheet[k] == if k % 4 == 3 then 255 else 32
  {
    Product(0, 0, height, width * 4);
    Regroup(width, height);
    sheet := new byte[height * (width * 4)](_ => 255);
    var i := 0;
    while i < sheet.Length
      invariant i % 4 == 0 && i <= sheet.Length && sheet.Length % 4 == 0
      invariant forall k | 0 <= k < i :: sheet[k] == if k % 4 == 3 then 255 else 32
      invariant forall k | i <= k < sheet.Length :: sheet[k] == 255
    {
      sheet[i] := 32;
      sheet[i + 1] := 32;
      sheet[i + 2] := 32;
      i := i + 4;
    }
  }

  lemma BackgroundHolds(rgba: seq<byte>, width: nat, height: nat, tiles: seq<Image>, g: Grid)
    requires Usable(g) && |rgba| == height * (width * 4)
    requires forall k | 0 <= k < |rgba| :: rgba[k] == if k % 4 == 3 then 255 else 32
    ensures Holds(rgba, width, height, tiles, g, 0)
  {
    forall x, y | 0 <= x < width && 0 <= y < height
      ensures 0 <= y * (width * 4) && y * (width * 4) + width * 4 <= |rgba|
      ensures PixelIn(RowAt(rgba, width * 4, y), x) == BACKGROUND
    {
      RowInside(width * 4, height, y);
      Regroup(width, y);
      BackgroundPixel(rgba, y * width, x, y * (width * 4), width * 4);
    }
  }

  lemma BackgroundPixel(rgba: seq<byte>, quarter: nat, x: nat, start: nat, line: nat)
    requires start == quarter * 4 && start + line <= |rgba| && x * 4 + 4 <= line
    requires forall k | 0 <= k < |rgba| :: rgba[k] == if k % 4 == 3 then 255 else 32
    ensures PixelIn(rgba[start..start + line], x) == BACKGROUND
  {
    FourInside(rgba, start, line, x * 4);
    BackgroundFour(rgba, quarter + x);
  }

  lemma FourInside(rgba: seq<byte>, start: nat, line: nat, at: nat)
    requires start + line <= |rgba| && at + 4 <= line
    ensures rgba[start..start + line][at..at + 4]
            == [rgba[start + at], rgba[start + at + 1], rgba[start + at + 2], rgba[start + at + 3]]
  {
  }

  lemma BackgroundFour(rgba: seq<byte>, q: nat)
    requires q * 4 + 4 <= |rgba| && forall k | 0 <= k < |rgba| :: rgba[k] == if k % 4 == 3 then 255 else 32
    ensures [rgba[q * 4], rgba[q * 4 + 1], rgba[q * 4 + 2], rgba[q * 4 + 3]] == BACKGROUND
  {
    assert q * 4 % 4 == 0 && (q * 4 + 1) % 4 == 1 && (q * 4 + 2) % 4 == 2 && (q * 4 + 3) % 4 == 3;
  }

  method MakeMontage(tiles: seq<Image>, columns: int, tileWidth: int, tileHeight: int, gutter: int) returns (sheet: Image)
    ensures sheet == Image(0, 0, []) <==> tiles == [] || columns <= 0 || tileWidth <= 0 || tileHeight <= 0 || gutter < 0
    ensures sheet != Image(0, 0, []) ==>
              && Valid(sheet)
              && sheet.width == Span(columns, tileWidth, gutter)
              && sheet.height == Span(RowCount(|tiles|, columns), tileHeight, gutter)
              && Holds(sheet.rgba, sheet.width, sheet.height, tiles, Grid(columns, tileWidth, tileHeight, gutter), |tiles|)
  {
    if tiles == [] || columns <= 0 || tileWidth <= 0 || tileHeight <= 0 || gutter < 0 {
      return Image(0, 0, []);
    }
    var g := Grid(columns, tileWidth, tileHeight, gutter);
    var rows := RowCount(|tiles|, columns);
    CellInside(0, columns, tileWidth, gutter);
    CellInside(0, rows, tileHeight, gutter);
    var width, height := Span(columns, tileWidth, gutter), Span(rows, tileHeight, gutter);
    var rgba := Background(width, height);
    BackgroundHolds(rgba[..], width, height, tiles, g);
    for i := 0 to |tiles|
      invariant Holds(rgba[..], width, height, tiles, g, i)
    {
      if !Valid(tiles[i]) {
        SkippedTile(rgba[..], width, height, tiles, g, i);
        continue;
      }
      PlaceTile(rgba, width, height, tiles, g, i);
    }
    sheet := Image(width, height, rgba[..]);
  }

  lemma SkippedTile(rgba: seq<byte>, width: nat, height: nat, tiles: seq<Image>, g: Grid, i: nat)
    requires Usable(g) && i < |tiles| && |rgba| == height * (width * 4) && !Valid(tiles[i])
    requires Holds(rgba, width, height, tiles, g, i)
    ensures Holds(rgba, width, height, tiles, g, i + 1)
  {
    forall x, y | 0 <= x < width && 0 <= y < height
      ensures SheetPixel(tiles, g, i, x, y) == SheetPixel(tiles, g, i + 1, x, y)
    {
    }
  }

  lemma TileRowExists(i: nat, n: nat, columns: nat)
    requires columns > 0 && i < n
    ensures i / columns < RowCount(n, columns)
  {
    var q, r := i / columns, (n + columns - 1) / columns;
    assert q * columns <= i;
    assert n + columns - 1 == r * columns + (n + columns - 1) % columns;
    if q >= r {
      Product(r, columns, q, columns);
    }
  }

  /** Tile `i` into its cell. */
  method PlaceTile(rgba: array<byte>, width: nat, height: nat, tiles: seq<Image>, g: Grid, i: nat)
    requires Usable(g) && i < |tiles| && Valid(tiles[i]) && rgba.Length == height * (width * 4)
    requires width == Span(g.columns, g.tileWidth, g.gutter)
    requires height == Span(RowCount(|tiles|, g.columns), g.tileHeight, g.gutter)
    requires Holds(rgba[..], width, height, tiles, g, i)
    modifies rgba
    ensures Holds(rgba[..], width, height, tiles, g, i + 1)
  {
    TileRowExists(i, |tiles|, g.columns);
    CellInside(i % g.columns, g.columns, g.tileWidth, g.gutter);
    CellInside(i / g.columns, RowCount(|tiles|, g.columns), g.tileHeight, g.gutter);
    var cellX, cellY := CellStart(i % g.columns, g.tileWidth, g.gutter), CellStart(i / g.columns, g.tileHeight, g.gutter);
    var w, h := Least(tiles[i].width, g.tileWidth), Least(tiles[i].height, g.tileHeight);
    ghost var before := rgba[..];
    Blit(rgba, width * 4, height, cellX, cellY, tiles[i], w, h);
    forall x, y | 0 <= x < width && 0 <= y < height
      ensures 0 <= y * (width * 4) && y * (width * 4) + width * 4 <= |before|
      ensures PixelIn(RowAt(rgba[..], width * 4, y), x) == SheetPixel(tiles, g, i + 1, x, y)
    {
      RowInside(width * 4, height, y);
      NextTile(RowAt(before, width * 4, y), x, y, tiles, g, i, cellX, cellY, w, h);
    }
  }

  /** Every valid tile's top left corner, cut to the cell, shows unchanged in its own cell. */
  lemma TileShows(tiles: seq<Image>, g: Grid, i: nat, dx: nat, dy: nat)
    requires Usable(g) && i < |tiles| && Shows(tiles, g, i, dx, dy)
    ensures var x, y := CellStart(i % g.columns, g.tileWidth, g.gutter) + dx, CellStart(i / g.columns, g.tileHeight, g.gutter) + dy;
            0 <= x < Span(g.columns, g.tileWidth, g.gutter)
            && 0 <= y < Span(RowCount(|tiles|, g.columns), g.tileHeight, g.gutter)
            && SheetPixel(tiles, g, |tiles|, x, y) == TilePixel(tiles[i], dx, dy)
  {
    TileRowExists(i, |tiles|, g.columns);
    CellInside(i % g.columns, g.columns, g.tileWidth, g.gutter);
    CellInside(i / g.columns, RowCount(|tiles|, g.columns), g.tileHeight, g.gutter);
    ShownAt(tiles, g, i, dx, dy, CellStart(i % g.columns, g.tileWidth, g.gutter), CellStart(i / g.columns, g.tileHeight, g.gutter));
  }

  lemma ShownAt(tiles: seq<Image>, g: Grid, i: nat, dx: nat, dy: nat, cellX: nat, cellY: nat)
    requires Usable(g) && i < |tiles| && Shows(tiles, g, i, dx, dy)
    requires cellX == CellStart(i % g.columns, g.tileWidth, g.gutter)
    requires cellY == CellStart(i / g.columns, g.tileHeight, g.gutter)
    requires cellX + dx < Span(g.columns, g.tileWidth, g.gutter)
    ensures SheetPixel(tiles, g, |tiles|, cellX + dx, cellY + dy) == TilePixel(tiles[i], dx, dy)
  {
    var x, y := cellX + dx, cellY + dy;
    CellPoint(g, i, dx, dy, x, y);
    assert SheetPixel(tiles, g, |tiles|, x, y) == CellPixel(tiles, g, |tiles|, i, dx, dy);
  }

  lemma CellPoint(g: Grid, i: nat, dx: nat, dy: nat, x: nat, y: nat)
    requires Usable(g) && dx < g.tileWidth && dy < g.tileHeight && x < Span(g.columns, g.tileWidth, g.gutter)
    requires x == CellStart(i % g.columns, g.tileWidth, g.gutter) + dx
    requires y == CellStart(i / g.columns, g.tileHeight, g.gutter) + dy
    ensures x >= g.gutter && y >= g.gutter && OwnerOf(g, x, y) == i
    ensures (x - g.gutter) % (g.tileWidth + g.gutter) == dx && (y - g.gutter) % (g.tileHeight + g.gutter) == dy
  {
    OnAxis(i % g.columns, g.tileWidth, g.gutter, dx, x);
    OnAxis(i / g.columns, g.tileHeight, g.gutter, dy, y);
    OwnerMeans(g, i, x, y);
  }

  lemma OnAxis(k: nat, cell: nat, gutter: nat, d: nat, x: nat)
    requires d < cell && x == CellStart(k, cell, gutter) + d
    ensures x >= gutter && (x - gutter) / (cell + gutter) == k && (x - gutter) % (cell + gutter) == d
  {
    Product(0, 0, k, cell + gutter);
    DivMod(x - gutter, cell + gutter, k, d);
  }

  /** And a pixel of the sheet that is in no tile's corner is the background. */
  lemma ElseBackground(tiles: seq<Image>, g: Grid, x: nat, y: nat)
    requires Usable(g) && x < Span(g.columns, g.tileWidth, g.gutter)
    requires forall i | 0 <= i < |tiles| && Valid(tiles[i]) ::
               !InCell(g, i, Least(tiles[i].width, g.tileWidth), Least(tiles[i].height, g.tileHeight), x, y)
    ensures SheetPixel(tiles, g, |tiles|, x, y) == BACKGROUND
  {
    if x >= g.gutter && y >= g.gutter {
      var i := OwnerOf(g, x, y);
      if i < |tiles| && Valid(tiles[i]) {
        InOwnCell(g, i, Least(tiles[i].width, g.tileWidth), Least(tiles[i].height, g.tileHeight), x, y);
      }
    }
  }

  /** No pixel lies in the cells of two tiles. */
  lemma CellsApart(g: Grid, i: nat, j: nat, x: nat, y: nat)
    requires Usable(g) && x < Span(g.columns, g.tileWidth, g.gutter)
    requires InCell(g, i, g.tileWidth, g.tileHeight, x, y) && InCell(g, j, g.tileWidth, g.tileHeight, x, y)
    ensures i == j
  {
    InOwnCell(g, i, g.tileWidth, g.tileHeight, x, y);
    InOwnCell(g, j, g.tileWidth, g.tileHeight, x, y);
  }

  // ------------------------------------------------------------------ the sheet in bytes

  /** As many rows as the tiles need, and no more. */
  lemma RowsNeeded(tiles: nat, columns: nat)
    requires tiles > 0 && columns > 0
    ensures (RowCount(tiles, columns) - 1) * columns < tiles <= RowCount(tiles, columns) * columns
  {
    Divide(tiles + columns - 1, columns, RowCount(tiles, columns));
    assert (RowCount(tiles, columns) - 1) * columns == RowCount(tiles, columns) * columns - columns;
  }

  /** The background is a dark grey, opaque. */
  lemma BackgroundIs()
    ensures BACKGROUND == [0x20, 0x20, 0x20, 0xff]
  {
  }

  /** Tile `i` stands in column `i % columns` and row `i / columns` of cells with a gutter before each, and its pixels
      are the sheet's there, byte for byte. */
  lemma TileBytes(sheet: Image, tiles: seq<Image>, g: Grid, i: nat, dx: nat, dy: nat, x: nat, y: nat, at: nat, from: nat)
    requires Usable(g) && i < |tiles| && Valid(sheet) && Valid(tiles[i])
    requires sheet.width == Span(g.columns, g.tileWidth, g.gutter)
    requires sheet.height == Span(RowCount(|tiles|, g.columns), g.tileHeight, g.gutter)
    requires Holds(sheet.rgba, sheet.width, sheet.height, tiles, g, |tiles|)
    requires dx < tiles[i].width && dx < g.tileWidth && dy < tiles[i].height && dy < g.tileHeight
    requires x == g.gutter + i % g.columns * (g.tileWidth + g.gutter) + dx
    requires y == g.gutter + i / g.columns * (g.tileHeight + g.gutter) + dy
    requires at == y * (sheet.width * 4) + x * 4 && from == dy * (tiles[i].width * 4) + dx * 4
    ensures at + 4 <= |sheet.rgba| && from + 4 <= |tiles[i].rgba|
    ensures sheet.rgba[at..at + 4] == tiles[i].rgba[from..from + 4]
  {
    TileShows(tiles, g, i, dx, dy);
    RowInside(sheet.width * 4, sheet.height, y);
    RowInside(tiles[i].width * 4, tiles[i].height, dy);
    PixelBytes(sheet.rgba, sheet.width * 4, y, x);
    PixelBytes(tiles[i].rgba, tiles[i].width * 4, dy, dx);
  }

  lemma PixelBytes(bytes: seq<byte>, line: nat, y: nat, x: nat)
    requires 0 <= y * line && y * line + line <= |bytes| && x * 4 + 4 <= line
    ensures PixelIn(RowAt(bytes, line, y), x) == bytes[y * line + x * 4..y * line + x * 4 + 4]
  {
    SliceOfSlice(bytes, y * line, y * line + line, x * 4, x * 4 + 4);
  }

  lemma SliceOfSlice(bytes: seq<byte>, i: nat, j: nat, from: nat, to: nat)
    requires i <= j <= |bytes| && from <= to <= j - i
    ensures bytes[i..j][from..to] == bytes[i + from..i + to]
  {
    var row := bytes[i..j];
    assert |row[from..to]| == |bytes[i + from..i + to]|;
    assert forall k | 0 <= k < to - from :: row[from..to][k] == row[from + k] == bytes[i + (from + k)] == bytes[i + from..i + to][k];
  }
}
