/** Scaling an image down by averaging boxes of its pixels (src/cpp/image.cpp). */
module Downscale {
  import opened Basics
  import opened Arithmetic
  import opened Bmp

  // ------------------------------------------------------------------ the boxes along one axis

  /** Where box `i` of `n` starts on an axis of `size` pixels. */
  function Start(i: nat, size: nat, n: nat): nat
    requires n > 0
  {
    Product(0, 0, i, size);
    i * size / n
  }

  /** The division again, without its quotient. */
  lemma StartMeans(i: nat, size: nat, n: nat)
    requires n > 0
    ensures Start(i, size, n) * n <= i * size < Start(i, size, n) * n + n
  {
    Product(0, 0, i, size);
    Divide(i * size, n, i * size / n);
  }

  /** Boxes are never empty, and the last one ends where the axis does. */
  lemma BoxesGrow(i: nat, size: nat, n: nat)
    requires 0 < n <= size
    ensures Start(i, size, n) < Start(i + 1, size, n)
    ensures Start(0, size, n) == 0 && Start(n, size, n) == size
  {
    StartMeans(i, size, n);
    StartMeans(i + 1, size, n);
    Distribute(i, size);
    Distribute(Start(i, size, n), n);
    NotBelow(Start(i, size, n) + 1, Start(i + 1, size, n), n);
    StartMeans(n, size, n);
    Ends(Start(n, size, n), size, n);
    StartMeans(0, size, n);
  }

  lemma Ends(q: nat, size: nat, n: nat)
    requires q * n <= n * size < q * n + n
    ensures q == size
  {
    assert n * size == size * n;
    NotBelow(size, q, n);
    Distribute(size, n);
    NotBelow(q, size, n);
  }

  lemma {:induction false} BoxesIncrease(i: nat, j: nat, size: nat, n: nat)
    requires i <= j && 0 < n <= size
    ensures Start(i, size, n) <= Start(j, size, n)
  {
    if i < j {
      BoxesIncrease(i, j - 1, size, n);
      BoxesGrow(j - 1, size, n);
    }
  }

  /** The box a source coordinate falls into. */
  function BoxOf(s: nat, size: nat, n: nat, i: nat): (box: nat)
    requires 0 < n <= size && i <= n && Start(i, size, n) <= s < size
    ensures box < n && Start(box, size, n) <= s < Start(box + 1, size, n)
    decreases n - i
  {
    BoxesGrow(i, size, n);
    if s < Start(i + 1, size, n) then i else BoxOf(s, size, n, i + 1)
  }

  predicate InBox(s: nat, i: nat, size: nat, n: nat)
    requires n > 0
  {
    Start(i, size, n) <= s < Start(i + 1, size, n)
  }

  lemma OnlyBox(s: nat, i: nat, j: nat, size: nat, n: nat)
    requires 0 < n <= size && InBox(s, i, size, n) && InBox(s, j, size, n)
    ensures i == j
  {
    if i < j {
      BoxesIncrease(i + 1, j, size, n);
    } else if j < i {
      BoxesIncrease(j + 1, i, size, n);
    }
  }

  /** Every source coordinate is in exactly one box. */
  lemma BoxesPartition(s: nat, size: nat, n: nat) returns (box: nat)
    requires 0 < n <= size && s < size
    ensures box < n && forall i: nat :: InBox(s, i, size, n) <==> i == box
  {
    BoxesGrow(0, size, n);
    box := BoxOf(s, size, n, 0);
    forall i: nat | InBox(s, i, size, n) ensures i == box {
      OnlyBox(s, i, box, size, n);
    }
  }

  // ------------------------------------------------------------------ sums over a box

  /** Channel `k` of pixel (x, y). */
  function Channel(img: Image, x: nat, y: nat, k: nat): byte
    requires Valid(img) && x < img.width && y < img.height && k < 4
  {
    PixelInside(img.width, img.height, x, y);
    img.rgba[y * (img.width * 4) + x * 4 + k]
  }

  function RowSum(img: Image, y: nat, x0: nat, nx: nat, k: nat): nat
    requires Valid(img) && x0 + nx <= img.width && y < img.height && k < 4
  {
    if nx == 0 then 0 else RowSum(img, y, x0, nx - 1, k) + Channel(img, x0 + nx - 1, y, k)
  }

  function BoxSum(img: Image, x0: nat, y0: nat, nx: nat, ny: nat, k: nat): nat
    requires Valid(img) && x0 + nx <= img.width && y0 + ny <= img.height && k < 4
  {
    if ny == 0 then 0 else BoxSum(img, x0, y0, nx, ny - 1, k) + RowSum(img, y0 + ny - 1, x0, nx, k)
  }

  const WORD := 0x1_0000_0000

  type word = x: int | 0 <= x < WORD

  /** The average, as 32-bit sums and counts give it. */
  function Mean(sum: nat, area: nat): byte {
    if area % WORD == 0 then 0 else sum % WORD / (area % WORD) % 256
  }

  function BoxMean(img: Image, x0: nat, y0: nat, nx: nat, ny: nat): (pixel: seq<byte>)
    requires Valid(img) && x0 + nx <= img.width && y0 + ny <= img.height
    ensures |pixel| == 4
  {
    Product(0, 0, nx, ny);
    [Mean(BoxSum(img, x0, y0, nx, ny, 0), nx * ny), Mean(BoxSum(img, x0, y0, nx, ny, 1), nx * ny),
     Mean(BoxSum(img, x0, y0, nx, ny, 2), nx * ny), Mean(BoxSum(img, x0, y0, nx, ny, 3), nx * ny)]
  }

  lemma AddModulo(sum: nat, total: nat, more: nat)
    requires sum == total % WORD
    ensures (sum + more) % WORD == (total + more) % WORD
  {
  }

  /** The sums of a box, as the accumulators hold them. */
  predicate Summed(sums: seq<word>, img: Image, x0: nat, y0: nat, nx: nat, ny: nat)
    requires Valid(img) && x0 + nx <= img.width && y0 + ny <= img.height
  {
    |sums| == 4 && forall k | 0 <= k < 4 :: sums[k] == BoxSum(img, x0, y0, nx, ny, k) % WORD
  }

  method AddPixel(sums: seq<word>, img: Image, x: nat, y: nat) returns (more: seq<word>)
    requires Valid(img) && x < img.width && y < img.height && |sums| == 4
    ensures |more| == 4 && forall k | 0 <= k < 4 :: more[k] == (sums[k] + Channel(img, x, y, k)) % WORD
  {
    PixelInside(img.width, img.height, x, y);
    var px := y * (img.width * 4) + x * 4;
    more := [(sums[0] + img.rgba[px]) % WORD, (sums[1] + img.rgba[px + 1]) % WORD,
             (sums[2] + img.rgba[px + 2]) % WORD, (sums[3] + img.rgba[px + 3]) % WORD];
  }

  /** `sums` and `n` more pixels of row `y`. */
  predicate Added(more: seq<word>, sums: seq<word>, img: Image, y: nat, x0: nat, n: nat)
    requires Valid(img) && x0 + n <= img.width && y < img.height
  {
    |more| == 4 == |sums| && forall k | 0 <= k < 4 :: more[k] == (sums[k] + RowSum(img, y, x0, n, k)) % WORD
  }

  lemma AddedNext(more: seq<word>, next: seq<word>, sums: seq<word>, img: Image, y: nat, x0: nat, n: nat)
    requires Valid(img) && x0 + n < img.width && y < img.height && Added(more, sums, img, y, x0, n)
    requires |next| == 4 && forall k | 0 <= k < 4 :: next[k] == (more[k] + Channel(img, x0 + n, y, k)) % WORD
    ensures Added(next, sums, img, y, x0, n + 1)
  {
    forall k | 0 <= k < 4 ensures next[k] == (sums[k] + RowSum(img, y, x0, n + 1, k)) % WORD {
      AddModulo(more[k], sums[k] + RowSum(img, y, x0, n, k), Channel(img, x0 + n, y, k));
    }
  }

  lemma AddedNone(sums: seq<word>, img: Image, y: nat, x0: nat)
    requires Valid(img) && x0 <= img.width && y < img.height && |sums| == 4
    ensures Added(sums, sums, img, y, x0, 0)
  {
  }

  /** One source row of a box, added into the four sums and the count. */
  method AddRow(img: Image, y: nat, x0: nat, x1: nat, sums: seq<word>, count: word) returns (more: seq<word>, newCount: word)
    requires Valid(img) && y < img.height && x0 <= x1 <= img.width && |sums| == 4
    ensures Added(more, sums, img, y, x0, x1 - x0) && newCount == (count + (x1 - x0)) % WORD
  {
    more, newCount := sums, count;
    AddedNone(sums, img, y, x0);
    for sx := x0 to x1
      invariant Added(more, sums, img, y, x0, sx - x0)
      invariant newCount == (count + (sx - x0)) % WORD
    {
      var next := AddPixel(more, img, sx, y);
      AddModulo(newCount, count + (sx - x0), 1);
      AddedNext(more, next, sums, img, y, x0, sx - x0);
      more, newCount := next, (newCount + 1) % WORD;
    }
  }

  lemma SummedNext(more: seq<word>, sums: seq<word>, img: Image, x0: nat, y0: nat, nx: nat, ny: nat)
    requires Valid(img) && x0 + nx <= img.width && y0 + ny < img.height
    requires Summed(sums, img, x0, y0, nx, ny) && Added(more, sums, img, y0 + ny, x0, nx)
    ensures Summed(more, img, x0, y0, nx, ny + 1)
  {
    forall k | 0 <= k < 4 ensures more[k] == BoxSum(img, x0, y0, nx, ny + 1, k) % WORD {
      AddModulo(sums[k], BoxSum(img, x0, y0, nx, ny, k), RowSum(img, y0 + ny, x0, nx, k));
    }
  }

  lemma AreaNext(nx: nat, ny: nat)
    ensures 0 <= nx * ny && nx * (ny + 1) == nx * ny + nx
  {
  }

  /** The average of one box. */
  method AverageBox(img: Image, x0: nat, x1: nat, y0: nat, y1: nat) returns (pixel: seq<byte>)
    requires Valid(img) && x0 <= x1 <= img.width && y0 <= y1 <= img.height
    ensures pixel == BoxMean(img, x0, y0, x1 - x0, y1 - y0)
  {
    var sums: seq<word>, count: word := [0, 0, 0, 0], 0;
    ghost var nx, area: nat := x1 - x0, 0;
    for sy := y0 to y1
      invariant Summed(sums, img, x0, y0, nx, sy - y0)
      invariant area == nx * (sy - y0) && count == area % WORD
    {
      AreaNext(nx, sy - y0);
      var more;
      ghost var was := count;
      more, count := AddRow(img, sy, x0, x1, sums, count);
      AddModulo(was, area, nx);
      SummedNext(more, sums, img, x0, y0, nx, sy - y0);
      sums := more;
      area := area + nx;
    }
    AveragesOf(sums, img, x0, y0, nx, y1 - y0, area, count);
    pixel := if count == 0 then [0, 0, 0, 0]
             else [sums[0] / count % 256, sums[1] / count % 256, sums[2] / count % 256, sums[3] / count % 256];
  }

  lemma AveragesOf(sums: seq<word>, img: Image, x0: nat, y0: nat, nx: nat, ny: nat, area: nat, count: word)
    requires Valid(img) && x0 + nx <= img.width && y0 + ny <= img.height && Summed(sums, img, x0, y0, nx, ny)
    requires area == nx * ny && count == area % WORD
    ensures BoxMean(img, x0, y0, nx, ny)
            == if count == 0 then [0, 0, 0, 0]
               else [sums[0] / count % 256, sums[1] / count % 256, sums[2] / count % 256, sums[3] / count % 256]
  {
  }

  // ------------------------------------------------------------------ the scaled image

  predicate Shrinks(img: Image, w: nat, h: nat) {
    Valid(img) && 0 < w <= img.width && 0 < h <= img.height
  }

  /** Box `i` of `n`, inside its axis. */
  lemma BoxInside(i: nat, size: nat, n: nat)
    requires i < n <= size
    ensures Start(i, size, n) < Start(i + 1, size, n) <= size
  {
    BoxesGrow(i, size, n);
    BoxesIncrease(i + 1, n, size, n);
  }

  function ScaledPixel(img: Image, w: nat, h: nat, x: nat, y: nat): (pixel: seq<byte>)
    requires Shrinks(img, w, h) && x < w && y < h
    ensures |pixel| == 4
  {
    BoxInside(x, img.width, w);
    BoxInside(y, img.height, h);
    var x0, y0 := Start(x, img.width, w), Start(y, img.height, h);
    BoxMean(img, x0, y0, Start(x + 1, img.width, w) - x0, Start(y + 1, img.height, h) - y0)
  }

  function ScaledRow(img: Image, w: nat, h: nat, y: nat, x: nat): (row: seq<byte>)
    requires Shrinks(img, w, h) && x <= w && y < h
    ensures |row| == x * 4
  {
    if x == 0 then [] else ScaledRow(img, w, h, y, x - 1) + ScaledPixel(img, w, h, x - 1, y)
  }

  function ScaledRows(img: Image, w: nat, h: nat, y: nat): (rows: seq<byte>)
    requires Shrinks(img, w, h) && y <= h
    ensures |rows| == y * (w * 4)
  {
    if y == 0 then [] else ScaledRows(img, w, h, y - 1) + ScaledRow(img, w, h, y - 1, w)
  }

  method WritePixel(out: array<byte>, at: nat, pixel: seq<byte>)
    requires at + 4 <= out.Length && |pixel| == 4
    modifies out
    ensures out[..at + 4] == old(out[..at]) + pixel
  {
    for k := 0 to 4
      invariant out[..at + k] == old(out[..at]) + pixel[..k]
    {
      out[at + k] := pixel[k];
      assert out[..at + k + 1] == out[..at + k] + [pixel[k]];
    }
    assert pixel[..4] == pixel;
  }

  /** A box's end, one past its start at least. */
  function EndOf(start: nat, end: nat): nat {
    if end <= start then start + 1 else end
  }

  /** One more pixel of a row, behind those already written. */
  method ScaleNext(img: Image, w: nat, h: nat, x: nat, y: nat, y0: nat, y1: nat, out: array<byte>, at: nat,
                   ghost before: seq<byte>)
    requires Shrinks(img, w, h) && x < w && y < h && at + 4 <= out.Length
    requires y0 == Start(y, img.height, h) && y1 == Start(y + 1, img.height, h) && y0 < y1 <= img.height
    requires out[..at] == before + ScaledRow(img, w, h, y, x)
    modifies out
    ensures out[..at + 4] == before + ScaledRow(img, w, h, y, x + 1)
  {
    BoxInside(x, img.width, w);
    var x0 := Start(x, img.width, w);
    var x1 := EndOf(x0, Start(x + 1, img.width, w));
    var pixel := AverageBox(img, x0, x1, y0, y1);
    assert pixel == ScaledPixel(img, w, h, x, y);
    Assoc(before, ScaledRow(img, w, h, y, x), pixel);
    WritePixel(out, at, pixel);
  }

  method ScaleLine(img: Image, w: nat, h: nat, y: nat, out: array<byte>, base: nat)
    requires Shrinks(img, w, h) && y < h && base + w * 4 <= out.Length
    modifies out
    ensures out[..base + w * 4] == old(out[..base]) + ScaledRow(img, w, h, y, w)
  {
    BoxInside(y, img.height, h);
    var y0 := Start(y, img.height, h);
    var y1 := EndOf(y0, Start(y + 1, img.height, h));
    ghost var before := out[..base];
    for x: nat := 0 to w
      invariant out[..base + x * 4] == before + ScaledRow(img, w, h, y, x)
    {
      ScaleNext(img, w, h, x, y, y0, y1, out, base + x * 4, before);
    }
  }

  /** The image scaled to `w` by `h`, the size the caller's limits come to. */
  method DownscaleImage(img: Image, maxWidth: int, maxHeight: int, w: nat, h: nat) returns (out: Image)
    requires Valid(img) ==> Shrinks(img, w, h)
    ensures !Valid(img) || maxWidth <= 0 || maxHeight <= 0 ==> out == Image(0, 0, [])
    ensures Valid(img) && 0 < maxWidth && 0 < maxHeight ==>
              out == if img.width <= maxWidth && img.height <= maxHeight then img
                     else Image(w, h, ScaledRows(img, w, h, h))
  {
    if !Valid(img) || maxWidth <= 0 || maxHeight <= 0 {
      return Image(0, 0, []);
    }
    if img.width <= maxWidth && img.height <= maxHeight {
      return img;
    }
    Product(0, 0, h, w * 4);
    var rgba := new byte[h * (w * 4)](_ => 255);
    for y := 0 to h
      invariant 0 <= y * (w * 4) <= rgba.Length && rgba[..y * (w * 4)] == ScaledRows(img, w, h, y)
    {
      Product(0, 0, y, w * 4);
      Product(y + 1, w * 4, h, w * 4);
      Distribute(y, w * 4);
      ScaleLine(img, w, h, y, rgba, y * (w * 4));
    }
    out := Image(w, h, rgba[..]);
  }

  // ------------------------------------------------------------------ what the averages mean

  /** Pixel (x, y) of the scaled image is the average of its box. */
  lemma {:induction false} ScaledRowAt(img: Image, w: nat, h: nat, y: nat, n: nat, x: nat)
    requires Shrinks(img, w, h) && x < n <= w && y < h
    ensures ScaledRow(img, w, h, y, n)[x * 4..x * 4 + 4] == ScaledPixel(img, w, h, x, y)
  {
    if x < n - 1 {
      ScaledRowAt(img, w, h, y, n - 1, x);
      assert ScaledRow(img, w, h, y, n)[x * 4..x * 4 + 4] == ScaledRow(img, w, h, y, n - 1)[x * 4..x * 4 + 4];
    }
  }

  lemma {:induction false} ScaledRowsAt(img: Image, w: nat, h: nat, n: nat, y: nat, start: nat)
    requires Shrinks(img, w, h) && y < n <= h && start == y * (w * 4)
    ensures start + w * 4 <= |ScaledRows(img, w, h, n)|
    ensures ScaledRows(img, w, h, n)[start..start + w * 4] == ScaledRow(img, w, h, y, w)
  {
    var before := ScaledRows(img, w, h, n - 1);
    if y < n - 1 {
      ScaledRowsAt(img, w, h, n - 1, y, start);
      SliceOfFirst(before, ScaledRow(img, w, h, n - 1, w), start, start + w * 4);
    } else {
      assert start == |before|;
      assert (before + ScaledRow(img, w, h, y, w))[start..start + w * 4] == ScaledRow(img, w, h, y, w);
    }
  }

  lemma SliceOfFirst<T>(first: seq<T>, second: seq<T>, from: nat, upto: nat)
    requires from <= upto <= |first|
    ensures (first + second)[from..upto] == first[from..upto]
  {
  }

  /** The scaled image is valid, and channel `k` of its pixel (x, y) is the mean of that pixel's box. */
  lemma ScaledChannel(img: Image, w: nat, h: nat, x: nat, y: nat, k: nat)
    requires Shrinks(img, w, h) && x < w && y < h && k < 4
    ensures var out := Image(w, h, ScaledRows(img, w, h, h));
            Valid(out) && Channel(out, x, y, k) == ScaledPixel(img, w, h, x, y)[k]
  {
    Product(0, 0, y, w * 4);
    ScaledRowsAt(img, w, h, h, y, y * (w * 4));
    ScaledRowAt(img, w, h, y, w, x);
    ChannelAt(Image(w, h, ScaledRows(img, w, h, h)), x, y, k, ScaledRow(img, w, h, y, w), y * (w * 4));
  }

  lemma ChannelAt(img: Image, x: nat, y: nat, k: nat, row: seq<byte>, start: nat)
    requires Valid(img) && x < img.width && y < img.height && k < 4 && start == y * (img.width * 4)
    requires |row| == img.width * 4 && start + |row| <= |img.rgba| && img.rgba[start..start + |row|] == row
    ensures Channel(img, x, y, k) == row[x * 4..x * 4 + 4][k]
  {
    var at := x * 4 + k;
    assert row[x * 4..x * 4 + 4][k] == row[at] == img.rgba[start..start + |row|][at] == img.rgba[start + at];
  }

  /** Every source value of the box lies between `low` and `high`. */
  predicate Between(img: Image, x0: nat, y0: nat, nx: nat, ny: nat, k: nat, low: nat, high: nat)
    requires Valid(img) && x0 + nx <= img.width && y0 + ny <= img.height && k < 4
  {
    forall x, y | x0 <= x < x0 + nx && y0 <= y < y0 + ny :: low <= Channel(img, x, y, k) <= high
  }

  lemma {:induction false} RowSumBetween(img: Image, y: nat, x0: nat, nx: nat, k: nat, low: nat, high: nat)
    requires Valid(img) && x0 + nx <= img.width && y < img.height && k < 4 && Between(img, x0, y, nx, 1, k, low, high)
    ensures low * nx <= RowSum(img, y, x0, nx, k) <= high * nx
  {
    if nx > 0 {
      assert low <= Channel(img, x0 + nx - 1, y, k) <= high;
      RowSumBetween(img, y, x0, nx - 1, k, low, high);
      Distribute(nx - 1, low);
      Distribute(nx - 1, high);
    }
  }

  lemma {:induction false} BoxSumBetween(img: Image, x0: nat, y0: nat, nx: nat, ny: nat, k: nat, low: nat, high: nat)
    requires Valid(img) && x0 + nx <= img.width && y0 + ny <= img.height && k < 4
    requires Between(img, x0, y0, nx, ny, k, low, high)
    ensures low * nx * ny <= BoxSum(img, x0, y0, nx, ny, k) <= high * nx * ny
  {
    if ny > 0 {
      BoxSumBetween(img, x0, y0, nx, ny - 1, k, low, high);
      RowSumBetween(img, y0 + ny - 1, x0, nx, k, low, high);
      Product(0, 0, low, nx);
      Product(0, 0, high, nx);
      AreaNext(low * nx, ny - 1);
      AreaNext(high * nx, ny - 1);
    }
  }

  lemma MeanBetween(sum: nat, area: nat, low: nat, high: byte)
    requires 0 < area && area * 255 < WORD && low * area <= sum <= high * area
    ensures low <= Mean(sum, area) <= high
  {
    Product(high, area, 255, area);
    PlainMean(sum, area);
    QuotientBetween(sum, area, Mean(sum, area), low, high);
  }

  lemma PlainMean(sum: nat, area: nat)
    requires 0 < area && sum <= 255 * area < WORD
    ensures Mean(sum, area) == sum / area
  {
    QuotientBetween(sum, area, sum / area, 0, 255);
  }

  lemma QuotientBetween(sum: nat, area: nat, mean: nat, low: nat, high: nat)
    requires 0 < area && low * area <= sum <= high * area && mean == sum / area
    ensures low <= mean <= high
  {
    Divide(sum, area, mean);
    NotBelow(low, mean, area);
    Distribute(high, area);
    NotBelow(mean, high, area);
  }

  /** With boxes below 2^32 / 255 pixels, an output channel lies between the least and the greatest value of its box. */
  lemma MeanOfBoxBetween(img: Image, x0: nat, y0: nat, nx: nat, ny: nat, k: nat, low: nat, high: byte)
    requires Valid(img) && x0 + nx <= img.width && y0 + ny <= img.height && k < 4
    requires 0 < nx * ny && nx * ny * 255 < WORD && Between(img, x0, y0, nx, ny, k, low, high)
    ensures low <= BoxMean(img, x0, y0, nx, ny)[k] <= high
  {
    BoxSumBetween(img, x0, y0, nx, ny, k, low, high);
    Reassociate(low, nx, ny);
    Reassociate(high, nx, ny);
    MeanBetween(BoxSum(img, x0, y0, nx, ny, k), nx * ny, low, high);
  }

  /** The 32-bit sum and count of a constant box give its value back. */
  predicate KeepsMean(value: byte, area: nat) {
    value == 0 || (area % WORD > 0 && value * (area % WORD) < WORD)
  }

  /** A constant box keeps its value exactly when neither its sum nor its count is spoilt by wrapping. */
  lemma ConstantBox(img: Image, x0: nat, y0: nat, nx: nat, ny: nat, k: nat, value: byte)
    requires Valid(img) && x0 + nx <= img.width && y0 + ny <= img.height && k < 4
    requires 0 < nx * ny && Between(img, x0, y0, nx, ny, k, value, value)
    ensures BoxMean(img, x0, y0, nx, ny)[k] == value <==> KeepsMean(value, nx * ny)
  {
    ConstantSum(img, x0, y0, nx, ny, k, value);
    ConstantMean(value, nx * ny);
  }

  lemma ConstantSum(img: Image, x0: nat, y0: nat, nx: nat, ny: nat, k: nat, value: byte)
    requires Valid(img) && x0 + nx <= img.width && y0 + ny <= img.height && k < 4
    requires Between(img, x0, y0, nx, ny, k, value, value)
    ensures BoxSum(img, x0, y0, nx, ny, k) == value * (nx * ny)
  {
    BoxSumBetween(img, x0, y0, nx, ny, k, value, value);
    Reassociate(value, nx, ny);
  }

  lemma ConstantMean(value: byte, area: nat)
    requires 0 < area
    ensures value * area >= 0
    ensures Mean(value * area, area) == value <==> KeepsMean(value, area)
  {
    Product(0, 0, value, area);
    Product(0, 0, value, area % WORD);
    if area % WORD == 0 {
      NoCount(value * area, area);
    } else {
      ModuloProduct(value, area, area / WORD, area % WORD);
      SameMean(value * area, area, value * (area % WORD));
      ConstantMeanOf(value * (area % WORD), area % WORD, value);
    }
  }

  lemma NoCount(sum: nat, area: nat)
    requires area % WORD == 0
    ensures Mean(sum, area) == 0
  {
  }

  lemma ModuloProduct(value: nat, area: nat, q: nat, r: nat)
    requires area == q * WORD + r
    ensures value * area >= 0 && value * r >= 0 && (value * area) % WORD == (value * r) % WORD
  {
    Product(0, 0, value, area);
    Product(0, 0, value, r);
    Product(0, 0, value, q);
    assert value * area == value * q * WORD + value * r;
    MoreWords(value * r, value * q);
  }

  lemma MoreWords(n: nat, words: nat)
    ensures (words * WORD + n) % WORD == n % WORD
  {
  }

  lemma SameMean(sum: nat, area: nat, other: nat)
    requires area % WORD != 0 && sum % WORD == other % WORD
    ensures Mean(sum, area) == Mean(other, area % WORD)
  {
  }

  lemma ConstantMeanOf(sum: nat, area: nat, value: byte)
    requires 0 < area < WORD && sum == value * area
    ensures Mean(sum, area) == value <==> sum < WORD
  {
    if sum < WORD {
      DivMod(sum, area, value, 0);
      WholeMean(sum, area, value);
    } else {
      Drops(sum);
      SmallQuotient(sum % WORD, area, value, sum);
      MeanBelow(sum, area, value);
    }
  }

  lemma WholeMean(sum: nat, area: nat, value: byte)
    requires 0 < area < WORD && sum < WORD && sum / area == value
    ensures Mean(sum, area) == value
  {
  }

  lemma MeanBelow(sum: nat, area: nat, value: byte)
    requires 0 < area < WORD && sum % WORD / area < value
    ensures Mean(sum, area) < value
  {
    assert area % WORD == area;
  }

  lemma Drops(sum: nat)
    requires WORD <= sum
    ensures sum % WORD < sum
  {
  }

  lemma SmallQuotient(rest: nat, area: nat, value: nat, sum: nat)
    requires 0 < area && rest < sum == value * area
    ensures rest / area < value
  {
    Divide(rest, area, rest / area);
    if value <= rest / area {
      Product(value, area, rest / area, area);
    }
  }

  // ------------------------------------------------------------------ a constant image

  predicate Constant(img: Image, colour: seq<byte>)
    requires Valid(img)
  {
    |colour| == 4
    && forall x, y, k | 0 <= x < img.width && 0 <= y < img.height && 0 <= k < 4 :: Channel(img, x, y, k) == colour[k]
  }

  /** The number of source pixels behind pixel (x, y) of the scaled image. */
  function BoxArea(img: Image, w: nat, h: nat, x: nat, y: nat): nat
    requires Shrinks(img, w, h) && x < w && y < h
  {
    BoxInside(x, img.width, w);
    BoxInside(y, img.height, h);
    var nx, ny := Start(x + 1, img.width, w) - Start(x, img.width, w), Start(y + 1, img.height, h) - Start(y, img.height, h);
    Product(1, 1, nx, ny);
    nx * ny
  }

  lemma ConstantPixel(img: Image, w: nat, h: nat, colour: seq<byte>, x: nat, y: nat, k: nat)
    requires Shrinks(img, w, h) && Constant(img, colour) && x < w && y < h && k < 4
    ensures ScaledPixel(img, w, h, x, y)[k] == colour[k] <==> KeepsMean(colour[k], BoxArea(img, w, h, x, y))
  {
    BoxInside(x, img.width, w);
    BoxInside(y, img.height, h);
    var x0, y0 := Start(x, img.width, w), Start(y, img.height, h);
    var nx, ny := Start(x + 1, img.width, w) - x0, Start(y + 1, img.height, h) - y0;
    Product(1, 1, nx, ny);
    ConstantBox(img, x0, y0, nx, ny, k, colour[k]);
  }

  /** Scaled down, a constant image is constant exactly when every box keeps every channel's value. */
  lemma ConstantImage(img: Image, w: nat, h: nat, colour: seq<byte>)
    requires Shrinks(img, w, h) && Constant(img, colour)
    ensures var out := Image(w, h, ScaledRows(img, w, h, h));
            Valid(out)
            && (Constant(out, colour)
                <==> forall x: nat, y: nat, k: nat | x < w && y < h && k < 4 ::
                       KeepsMean(colour[k], BoxArea(img, w, h, x, y)))
  {
    var out := Image(w, h, ScaledRows(img, w, h, h));
    forall x: nat, y: nat, k: nat | x < w && y < h && k < 4
      ensures Valid(out) && (Channel(out, x, y, k) == colour[k] <==> KeepsMean(colour[k], BoxArea(img, w, h, x, y)))
    {
      ScaledChannel(img, w, h, x, y, k);
      ConstantPixel(img, w, h, colour, x, y, k);
    }
    assert Valid(out) by {
      ScaledChannel(img, w, h, 0, 0, 0);
    }
  }

  /** An input: a white image of 8192 by 8192 pixels in one pixel is dark grey. */
  lemma WhiteTurnsGrey(img: Image)
    requires Valid(img) && img.width == img.height == 8192 && Constant(img, [255, 255, 255, 255])
    ensures ScaledPixel(img, 1, 1, 0, 0) == [63, 63, 63, 63]
  {
    WholeAxis();
    forall k | 0 <= k < 4 ensures BoxMean(img, 0, 0, 8192, 8192)[k] == 63 {
      ConstantSum(img, 0, 0, 8192, 8192, k, 255);
      GreyMean();
    }
  }

  lemma WholeAxis()
    ensures Start(0, 8192, 1) == 0 && Start(1, 8192, 1) == 8192
  {
  }

  lemma GreyMean()
    ensures Mean(255 * (8192 * 8192), 8192 * 8192) == 63
  {
  }

  /** There is such an image. */
  lemma WhiteImage() returns (img: Image)
    ensures Valid(img) && img.width == img.height == 8192 && Constant(img, [255, 255, 255, 255])
  {
    img := Image(8192, 8192, seq(8192 * (8192 * 4), _ => 255));
    forall x, y, k | 0 <= x < 8192 && 0 <= y < 8192 && 0 <= k < 4 ensures Channel(img, x, y, k) == 255 {
      PixelInside(8192, 8192, x, y);
    }
  }

  // ------------------------------------------------------------------ boxes and means as numbers

  /** Where box `i` starts: at its share of the axis, rounded down. */
  lemma StartIsShare(i: nat, size: nat, n: nat)
    requires n > 0
    ensures Start(i, size, n) * n <= i * size < Start(i, size, n) * n + n
  {
    Product(0, 0, i, size);
    Divide(i * size, n, Start(i, size, n));
  }

  /** The mean of a box whose sum fits in 32 bits is its sum over its pixels, rounded down. */
  lemma MeanIsFloor(img: Image, x0: nat, y0: nat, nx: nat, ny: nat, k: nat, area: nat, mean: nat)
    requires Valid(img) && x0 + nx <= img.width && y0 + ny <= img.height && k < 4
    requires 0 < area == nx * ny && area * 255 < WORD && mean == BoxMean(img, x0, y0, nx, ny)[k]
    ensures mean * area <= BoxSum(img, x0, y0, nx, ny, k) < mean * area + area
  {
    SumFits(img, x0, y0, nx, ny, k, area);
    MeanFloor(BoxSum(img, x0, y0, nx, ny, k), area);
  }

  lemma SumFits(img: Image, x0: nat, y0: nat, nx: nat, ny: nat, k: nat, area: nat)
    requires Valid(img) && x0 + nx <= img.width && y0 + ny <= img.height && k < 4 && area == nx * ny
    ensures BoxSum(img, x0, y0, nx, ny, k) <= 255 * area
  {
    assert Between(img, x0, y0, nx, ny, k, 0, 255);
    BoxSumBetween(img, x0, y0, nx, ny, k, 0, 255);
    Reassociate(255, nx, ny);
  }

  lemma MeanFloor(sum: nat, area: nat)
    requires 0 < area && area * 255 < WORD && sum <= 255 * area
    ensures Mean(sum, area) * area <= sum < Mean(sum, area) * area + area
  {
    Divide(sum, area, sum / area);
    NotBelow(sum / area, 255, area);
  }
}
