/** Histogram bars: the engine's buckets summed into fewer, contiguous groups (src/cpp/commands_image.cpp). */
module Histogram {
  import opened Basics
  import opened Arithmetic

  function Sum(values: seq<nat>): nat {
    if values == [] then 0 else Sum(values[..|values| - 1]) + values[|values| - 1]
  }

  lemma {:induction false} SumConcat(xs: seq<nat>, ys: seq<nat>)
    ensures Sum(xs + ys) == Sum(xs) + Sum(ys)
  {
    if ys == [] {
      assert xs + ys == xs;
    } else {
      SumConcat(xs, ys[..|ys| - 1]);
      assert (xs + ys)[..|xs + ys| - 1] == xs + ys[..|ys| - 1];
    }
  }

  // ------------------------------------------------------------------ the groups

  /** The group of bucket `i`, of `n` buckets in `rows` groups. */
  function GroupOf(i: nat, rows: nat, n: nat): nat
    requires n > 0
  {
    Product(0, rows, i, rows);
    i * rows / n
  }

  /** The first bucket of group `g`: `g * n / rows` rounded up. */
  function First(g: nat, rows: nat, n: nat): nat
    requires rows > 0
  {
    Product(0, n, g, n);
    (g * n + rows - 1) / rows
  }

  /** A bucket is in group `g` or later exactly when it is not before the group's first bucket. */
  lemma FirstMeans(i: nat, g: nat, rows: nat, n: nat)
    requires 0 < rows && 0 < n
    ensures g <= GroupOf(i, rows, n) <==> First(g, rows, n) <= i
  {
    var q, f := GroupOf(i, rows, n), First(g, rows, n);
    Product(0, rows, i, rows);
    Product(0, n, g, n);
    Divide(i * rows, n, i * rows / n);
    Divide(g * n + rows - 1, rows, (g * n + rows - 1) / rows);
    if g <= q {
      Product(g, n, q, n);
      NotBelow(f, i, rows);
    }
    if f <= i {
      Product(f, rows, i, rows);
      NotBelow(g, q, n);
    }
  }

  /** The groups are contiguous: group `g` is the buckets from its first to the next group's. */
  lemma GroupIsRange(i: nat, g: nat, rows: nat, n: nat)
    requires 0 < rows && 0 < n
    ensures GroupOf(i, rows, n) == g <==> First(g, rows, n) <= i < First(g + 1, rows, n)
  {
    FirstMeans(i, g, rows, n);
    FirstMeans(i, g + 1, rows, n);
  }

  /** They cover all buckets, none is empty, and their sizes differ by one at most. */
  lemma GroupSizes(g: nat, rows: nat, n: nat)
    requires 0 < rows < n && g < rows
    ensures First(0, rows, n) == 0 && First(rows, rows, n) == n
    ensures n / rows <= First(g + 1, rows, n) - First(g, rows, n) <= n / rows + 1
    ensures First(g, rows, n) < First(g + 1, rows, n) <= n
  {
    var f, next, d := First(g, rows, n), First(g + 1, rows, n), n / rows;
    Product(0, n, g, n);
    Distribute(g, n);
    Divide(g * n + rows - 1, rows, (g * n + rows - 1) / rows);
    Divide((g + 1) * n + rows - 1, rows, ((g + 1) * n + rows - 1) / rows);
    Divide(n, rows, n / rows);
    Spread(f, next, d, rows, g * n, n);
    Ends(rows, n);
    Product(1, rows, 1, rows);
    NotBelow(1, d, rows);
    Product(g + 1, n, rows, n);
    FirstGrows(g + 1, rows, rows, n);
  }

  lemma Spread(f: nat, next: nat, d: nat, rows: nat, gn: nat, n: nat)
    requires rows > 0
    requires f * rows <= gn + rows - 1 < f * rows + rows
    requires next * rows <= gn + n + rows - 1 < next * rows + rows
    requires d * rows <= n < d * rows + rows
    ensures f + d <= next <= f + d + 1
  {
    assert (f + d) * rows == f * rows + d * rows;
    NotBelow(f + d, next, rows);
    assert (f + d + 1) * rows == f * rows + d * rows + rows;
    NotBelow(next, f + d + 1, rows);
  }

  lemma Ends(rows: nat, n: nat)
    requires 0 < rows
    ensures First(rows, rows, n) == n && First(0, rows, n) == 0
  {
    Product(0, n, rows, n);
    Divide(rows * n + rows - 1, rows, (rows * n + rows - 1) / rows);
    assert rows * n == n * rows;
    NotBelow(n, First(rows, rows, n), rows);
    NotBelow(First(rows, rows, n), n, rows);
  }

  lemma FirstGrows(g: nat, h: nat, rows: nat, n: nat)
    requires 0 < rows && g <= h
    ensures First(g, rows, n) <= First(h, rows, n)
  {
    Product(g, n, h, n);
    Divide(g * n + rows - 1, rows, (g * n + rows - 1) / rows);
    Divide(h * n + rows - 1, rows, (h * n + rows - 1) / rows);
    NotBelow(First(g, rows, n), First(h, rows, n), rows);
  }

  // ------------------------------------------------------------------ the sums

  /** The sum of the buckets of group `g` among the first `i`. */
  function GroupSum(buckets: seq<nat>, rows: nat, g: nat): nat
    requires 0 < rows < |buckets| && g < rows
  {
    GroupSizes(g, rows, |buckets|);
    Sum(buckets[First(g, rows, |buckets|)..First(g + 1, rows, |buckets|)])
  }

  /** What group `g` has got from the first `i` buckets. */
  function Part(buckets: seq<nat>, rows: nat, g: nat, i: nat): nat
    requires i <= |buckets|
  {
    if i == 0 then 0
    else Part(buckets, rows, g, i - 1) + if GroupOf(i - 1, rows, |buckets|) == g then buckets[i - 1] else 0
  }

  lemma {:induction false} PartIsSum(buckets: seq<nat>, rows: nat, g: nat, first: nat, next: nat, i: nat)
    requires 0 < rows < |buckets| && g < rows && i <= |buckets|
    requires first == First(g, rows, |buckets|) <= next == First(g + 1, rows, |buckets|) <= |buckets|
    ensures Part(buckets, rows, g, i) == if i <= first then 0 else Sum(buckets[first..Least(next, i)])
  {
    if i > 0 {
      PartIsSum(buckets, rows, g, first, next, i - 1);
      GroupIsRange(i - 1, g, rows, |buckets|);
      if first < i <= next {
        SumNext(buckets, first, i - 1);
      }
    }
  }

  lemma SumNext(values: seq<nat>, from: nat, i: nat)
    requires from <= i < |values|
    ensures Sum(values[from..i + 1]) == Sum(values[from..i]) + values[i] && Sum(values[from..from]) == 0
  {
    assert values[from..i + 1][..i - from] == values[from..i];
  }

  method AggregateBuckets(buckets: seq<nat>, rows: int) returns (out: seq<nat>)
    ensures rows <= 0 || rows >= |buckets| ==> out == buckets
    ensures 0 < rows < |buckets| ==>
              |out| == rows && forall g | 0 <= g < rows :: out[g] == GroupSum(buckets, rows, g)
  {
    var want := if rows > 0 then rows else |buckets|;
    if buckets == [] || want >= |buckets| {
      out := [];
      for i := 0 to |buckets|
        invariant out == buckets[..i]
      {
        out := out + [buckets[i]];
      }
      return;
    }
    out := seq(want, _ => 0);
    for i := 0 to |buckets|
      invariant |out| == want
      invariant forall g | 0 <= g < want :: out[g] == Part(buckets, want, g, i)
    {
      var group := GroupOf(i, want, |buckets|);
      GroupInRange(i, want, |buckets|);
      out := out[group := out[group] + buckets[i]];
    }
    forall g | 0 <= g < want ensures out[g] == GroupSum(buckets, want, g) {
      GroupSizes(g, want, |buckets|);
      PartIsSum(buckets, want, g, First(g, want, |buckets|), First(g + 1, want, |buckets|), |buckets|);
    }
  }

  lemma GroupInRange(i: nat, rows: nat, n: nat)
    requires 0 < rows && i < n
    ensures GroupOf(i, rows, n) < rows
  {
    Ends(rows, n);
    FirstMeans(i, rows, rows, n);
  }

  /** The bars of the first `g` groups add up to the buckets before group `g`. */
  lemma {:induction false} GroupsAddUp(buckets: seq<nat>, rows: nat, out: seq<nat>, g: nat)
    requires 0 < rows < |buckets| && g <= rows == |out|
    requires forall k | 0 <= k < rows :: out[k] == GroupSum(buckets, rows, k)
    ensures First(g, rows, |buckets|) <= |buckets| && Sum(out[..g]) == Sum(buckets[..First(g, rows, |buckets|)])
  {
    if g > 0 {
      GroupsAddUp(buckets, rows, out, g - 1);
      GroupSizes(g - 1, rows, |buckets|);
      var f, next := First(g - 1, rows, |buckets|), First(g, rows, |buckets|);
      assert out[..g][..g - 1] == out[..g - 1];
      assert buckets[..next] == buckets[..f] + buckets[f..next];
      SumConcat(buckets[..f], buckets[f..next]);
    } else {
      Ends(rows, |buckets|);
    }
  }

  /** No count is lost or invented. */
  lemma TotalKept(buckets: seq<nat>, rows: nat, out: seq<nat>)
    requires 0 < rows < |buckets| && rows == |out|
    requires forall k | 0 <= k < rows :: out[k] == GroupSum(buckets, rows, k)
    ensures Sum(out) == Sum(buckets)
  {
    GroupsAddUp(buckets, rows, out, rows);
    Ends(rows, |buckets|);
    assert out[..rows] == out && buckets[..|buckets|] == buckets;
  }
}
