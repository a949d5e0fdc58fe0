/** How much two images of one size differ (src/cpp/image.cpp). */
module PixelDelta {
  import opened Basics
  import opened Bmp

  function Distance(a: byte, b: byte): byte {
    if a < b then b - a else a - b
  }

  function Larger(x: nat, y: nat): nat {
    if y > x then y else x
  }

  /** The largest difference of the first `n` channels of the pixel at `at`. */
  function ChannelDelta(a: seq<byte>, b: seq<byte>, at: nat, n: nat): (delta: nat)
    requires at + n <= |a| == |b|
    ensures delta < 256
  {
    if n == 0 then 0
    else
      Larger(ChannelDelta(a, b, at, n - 1), Distance(a[at + n - 1], b[at + n - 1]))
  }

  lemma SliceNext<T>(list: seq<T>, from: nat, i: nat)
    requires from <= i < |list|
    ensures list[from..i + 1] == list[from..i] + [list[i]]
  {
  }

  lemma {:induction false} NoDelta(a: seq<byte>, b: seq<byte>, at: nat, n: nat)
    requires at + n <= |a| == |b|
    ensures ChannelDelta(a, b, at, n) == 0 <==> a[at..at + n] == b[at..at + n]
  {
    if n > 0 {
      NoDelta(a, b, at, n - 1);
      var i := at + n - 1;
      SliceNext(a, at, i);
      SliceNext(b, at, i);
      SameTail(a[at..i], b[at..i], a[i], b[i]);
    }
  }

  lemma SameTail<T>(xs: seq<T>, ys: seq<T>, x: T, y: T)
    requires |xs| == |ys|
    ensures xs + [x] == ys + [y] <==> xs == ys && x == y
  {
    if xs + [x] == ys + [y] {
      assert xs == (xs + [x])[..|xs|] && ys == (ys + [y])[..|ys|];
      assert (xs + [x])[|xs|] == x;
    }
  }

  function PixelDelta(a: seq<byte>, b: seq<byte>, px: nat): nat
    requires px * 4 + 4 <= |a| == |b|
  {
    ChannelDelta(a, b, px * 4, 4)
  }

  /** Pixels that differ, the largest difference, and the differences added up. */
  datatype Delta = Delta(differing: nat, maxDelta: nat, sum: nat)

  function DeltaOf(a: seq<byte>, b: seq<byte>, n: nat): Delta
    requires n * 4 <= |a| == |b|
  {
    if n == 0 then Delta(0, 0, 0)
    else
      var before, delta := DeltaOf(a, b, n - 1), PixelDelta(a, b, n - 1);
      Delta(before.differing + (if delta == 0 then 0 else 1), Larger(before.maxDelta, delta), before.sum + delta)
  }

  function Heat(delta: nat): byte {
    if delta * 8 > 255 then 255 else delta * 8
  }

  /** The picture of the differences of the first `n` pixels. */
  function HeatOf(a: seq<byte>, b: seq<byte>, n: nat): (heat: seq<byte>)
    requires n * 4 <= |a| == |b|
    ensures |heat| == n * 4
  {
    if n == 0 then []
    else
      var level := Heat(PixelDelta(a, b, n - 1));
      HeatOf(a, b, n - 1) + [0, level, level, 255]
  }

  datatype Result = Incomparable | Compared(delta: Delta, heat: Image)

  method MaxChannel(a: seq<byte>, b: seq<byte>, at: nat) returns (delta: nat)
    requires at + 4 <= |a| == |b|
    ensures delta == ChannelDelta(a, b, at, 4)
  {
    delta := 0;
    for k := 0 to 4
      invariant delta == ChannelDelta(a, b, at, k)
    {
      var d := a[at + k] as int - b[at + k] as int;
      var mag := if d < 0 then -d else d;
      if mag > delta {
        delta := mag;
      }
    }
  }

  method ImagePixelDelta(a: Image, b: Image) returns (result: Result)
    ensures result.Compared? <==> Valid(a) && Valid(b) && a.width == b.width && a.height == b.height
    ensures result.Compared? ==>
              |a.rgba| == |b.rgba| && |a.rgba| / 4 * 4 == |a.rgba|
              && result.delta == DeltaOf(a.rgba, b.rgba, |a.rgba| / 4)
              && result.heat == Image(a.width, a.height, HeatOf(a.rgba, b.rgba, |a.rgba| / 4))
  {
    if !Valid(a) || !Valid(b) || a.width != b.width || a.height != b.height {
      return Incomparable;
    }
    Regroup(a.width, a.height);
    Quarters(|a.rgba|, a.width * a.height);
    var delta, heat := ComparePixels(a.rgba, b.rgba, |a.rgba| / 4);
    result := Compared(delta, Image(a.width, a.height, heat));
  }

  lemma Quarters(n: nat, quarter: nat)
    requires n == quarter * 4
    ensures n / 4 * 4 == n
  {
  }

  method ComparePixels(a: seq<byte>, b: seq<byte>, n: nat) returns (delta: Delta, heat: seq<byte>)
    requires n * 4 <= |a| == |b|
    ensures delta == DeltaOf(a, b, n) && heat == HeatOf(a, b, n)
  {
    var differing, maxDelta, sum := 0, 0, 0;
    heat := [];
    for px := 0 to n
      invariant Delta(differing, maxDelta, sum) == DeltaOf(a, b, px)
      invariant heat == HeatOf(a, b, px)
    {
      var d := MaxChannel(a, b, px * 4);
      if d != 0 {
        differing, sum := differing + 1, sum + d;
        if d > maxDelta {
          maxDelta := d;
        }
      }
      heat := heat + [0, Heat(d), Heat(d), 255];
    }
    delta := Delta(differing, maxDelta, sum);
  }

  // ------------------------------------------------------------------ what the numbers mean

  lemma {:induction false} ChannelsSwap(a: seq<byte>, b: seq<byte>, at: nat, n: nat)
    requires at + n <= |a| == |b|
    ensures ChannelDelta(a, b, at, n) == ChannelDelta(b, a, at, n)
  {
    if n > 0 {
      ChannelsSwap(a, b, at, n - 1);
    }
  }

  /** Which image comes first does not matter. */
  lemma {:induction false} DeltaIsSymmetric(a: seq<byte>, b: seq<byte>, n: nat)
    requires n * 4 <= |a| == |b|
    ensures DeltaOf(a, b, n) == DeltaOf(b, a, n)
  {
    if n > 0 {
      DeltaIsSymmetric(a, b, n - 1);
      ChannelsSwap(a, b, (n - 1) * 4, 4);
    }
  }

  /** No pixel differs exactly when the bytes are the same, alpha included; the numbers agree with each other. */
  lemma {:induction false} DeltaMeans(a: seq<byte>, b: seq<byte>, n: nat)
    requires n * 4 <= |a| == |b|
    ensures var d := DeltaOf(a, b, n);
            (d.differing == 0 <==> a[..n * 4] == b[..n * 4]) && (d.differing == 0 <==> d.maxDelta == 0)
            && d.differing <= n && d.maxDelta < 256
            && d.differing <= d.sum && d.maxDelta <= d.sum && d.sum <= d.maxDelta * d.differing
  {
    if n > 0 {
      DeltaMeans(a, b, n - 1);
      var at := (n - 1) * 4;
      assert a[..n * 4] == a[..at] + a[at..at + 4] && b[..n * 4] == b[..at] + b[at..at + 4];
      NoDelta(a, b, at, 4);
      SameParts(a[..at], b[..at], a[at..at + 4], b[at..at + 4]);
      var before, delta := DeltaOf(a, b, n - 1), PixelDelta(a, b, n - 1);
      SumStays(before.sum, before.maxDelta, before.differing, delta);
    }
  }

  lemma SameParts<T>(xs: seq<T>, ys: seq<T>, us: seq<T>, vs: seq<T>)
    requires |xs| == |ys| && |us| == |vs|
    ensures xs + us == ys + vs <==> xs == ys && us == vs
  {
    if xs + us == ys + vs {
      assert xs == (xs + us)[..|xs|] && us == (xs + us)[|xs|..];
      assert ys == (ys + vs)[..|ys|] && vs == (ys + vs)[|ys|..];
    }
  }

  lemma SumStays(sum: nat, max: nat, count: nat, delta: nat)
    requires sum <= max * count
    ensures sum + delta <= Larger(max, delta) * (count + 1)
    ensures sum <= Larger(max, delta) * count
  {
    assert max * count <= Larger(max, delta) * count;
  }

  // ------------------------------------------------------------------ the numbers and the heat picture in bytes

  /** How far two bytes are apart. */
  function Apart(a: seq<byte>, b: seq<byte>, i: nat): nat
    requires i < |a| == |b|
  {
    if a[i] < b[i] then b[i] - a[i] else a[i] - b[i]
  }

  lemma {:induction false} ChannelsTell(a: seq<byte>, b: seq<byte>, at: nat, n: nat)
    requires at + n <= |a| == |b|
    ensures forall i | at <= i < at + n :: Apart(a, b, i) <= ChannelDelta(a, b, at, n)
    ensures n > 0 ==> exists i :: at <= i < at + n && Apart(a, b, i) == ChannelDelta(a, b, at, n)
  {
    if n > 0 {
      ChannelsTell(a, b, at, n - 1);
      assert Apart(a, b, at + n - 1) == Distance(a[at + n - 1], b[at + n - 1]);
    }
  }

  /** A pixel's difference is the greatest of its four channels', alpha among them. */
  lemma PixelTells(a: seq<byte>, b: seq<byte>, px: nat)
    requires px * 4 + 4 <= |a| == |b|
    ensures forall i | px * 4 <= i < px * 4 + 4 :: Apart(a, b, i) <= PixelDelta(a, b, px)
    ensures exists i :: px * 4 <= i < px * 4 + 4 && Apart(a, b, i) == PixelDelta(a, b, px)
  {
    ChannelsTell(a, b, px * 4, 4);
  }

  /** The pixels of which some channel differs. */
  ghost function Differing(a: seq<byte>, b: seq<byte>, n: nat): set<nat>
    requires n * 4 <= |a| == |b|
  {
    set px: nat | px < n && a[px * 4..px * 4 + 4] != b[px * 4..px * 4 + 4]
  }

  lemma DifferingNext(a: seq<byte>, b: seq<byte>, n: nat)
    requires n * 4 + 4 <= |a| == |b|
    ensures |Differing(a, b, n + 1)| == |Differing(a, b, n)| + if PixelDelta(a, b, n) == 0 then 0 else 1
  {
    NoDelta(a, b, n * 4, 4);
    var before := Differing(a, b, n);
    assert n !in before;
    assert Differing(a, b, n + 1) == if a[n * 4..n * 4 + 4] != b[n * 4..n * 4 + 4] then before + {n} else before;
  }

  /** The three numbers: how many pixels differ, the greatest difference of a pixel, and the sum of them all. */
  lemma {:induction false} DeltaTells(a: seq<byte>, b: seq<byte>, n: nat)
    requires n * 4 <= |a| == |b|
    ensures DeltaOf(a, b, n).differing == |Differing(a, b, n)|
    ensures forall px: nat | px < n :: PixelDelta(a, b, px) <= DeltaOf(a, b, n).maxDelta
    ensures DeltaOf(a, b, n).maxDelta == 0 || exists px: nat :: px < n && PixelDelta(a, b, px) == DeltaOf(a, b, n).maxDelta
  {
    if n == 0 {
      assert Differing(a, b, 0) == {};
    } else {
      DeltaTells(a, b, n - 1);
      DifferingNext(a, b, n - 1);
      assert PixelDelta(a, b, n - 1) <= DeltaOf(a, b, n).maxDelta;
    }
  }

  lemma SumGoesOn(a: seq<byte>, b: seq<byte>, n: nat)
    requires n * 4 + 4 <= |a| == |b|
    ensures DeltaOf(a, b, 0).sum == 0 && DeltaOf(a, b, n + 1).sum == DeltaOf(a, b, n).sum + PixelDelta(a, b, n)
  {
  }

  /** The heat picture: yellow by eight times the pixel's difference, as bright as can be from 32 on; opaque. */
  lemma {:induction false} HeatTells(a: seq<byte>, b: seq<byte>, n: nat, px: nat)
    requires n * 4 <= |a| == |b| && px < n
    ensures var level := if PixelDelta(a, b, px) < 32 then 8 * PixelDelta(a, b, px) else 255;
            HeatOf(a, b, n)[px * 4..px * 4 + 4] == [0, level, level, 255]
  {
    var init := HeatOf(a, b, n - 1);
    if px < n - 1 {
      HeatTells(a, b, n - 1, px);
      SliceStays(init, HeatOf(a, b, n), px * 4);
    }
  }

  lemma SliceStays(init: seq<byte>, all: seq<byte>, at: nat)
    requires at + 4 <= |init| <= |all| && all[..|init|] == init
    ensures all[at..at + 4] == init[at..at + 4]
  {
    assert all[at..at + 4] == all[..|init|][at..at + 4];
  }
}
