/**
 Passes as maximal runs of calls, and their costs gathered in buckets
 (src/cpp/commands_frame.cpp).
 */
module PassCosts {
  import opened Basics
  import ActionTree

  type Node = ActionTree.Node

  datatype PassRange = PassRange(name: string, first: int, last: int)

  /** One counter result. */
  datatype Reading<D> = Reading(counter: int, eid: int, value: D)

  /** Floating point as the fold uses it: nothing is known of the addition or of the comparison. */
  datatype Arithmetic<!D> = Arithmetic(zero: D, plus: (D, D) -> D, greater: (D, D) -> bool)

  datatype PassCost<D> =
    PassCost(index: nat, name: string, first: int, last: int, events: nat, measured: nat, sum: D, max: D)

  // ------------------------------------------------------------------ passes as runs

  function Calls(rows: seq<Node>): seq<Node> {
    if rows == [] then []
    else Calls(rows[..|rows| - 1]) + if rows[|rows| - 1].call then [rows[|rows| - 1]] else []
  }

  /** The calls in runs of one path. */
  function Groups(calls: seq<Node>): seq<seq<Node>> {
    if calls == [] then [] else Joined(Groups(calls[..|calls| - 1]), calls[|calls| - 1])
  }

  function Joined(groups: seq<seq<Node>>, call: Node): seq<seq<Node>> {
    if groups != [] && groups[|groups| - 1] != [] && groups[|groups| - 1][0].path == call.path
    then groups[..|groups| - 1] + [groups[|groups| - 1] + [call]]
    else groups + [[call]]
  }

  function Concat(groups: seq<seq<Node>>): seq<Node> {
    if groups == [] then [] else Concat(groups[..|groups| - 1]) + groups[|groups| - 1]
  }

  /** One path through the whole group, and not the path of the next group. */
  predicate MaximalRun(groups: seq<seq<Node>>, k: nat)
    requires k < |groups|
  {
    groups[k] != [] && (forall c | c in groups[k] :: c.path == groups[k][0].path)
    && (k + 1 < |groups| && groups[k + 1] != [] ==> groups[k + 1][0].path != groups[k][0].path)
  }

  predicate MaximalRuns(groups: seq<seq<Node>>) {
    forall k | 0 <= k < |groups| :: MaximalRun(groups, k)
  }

  lemma {:induction false} GroupsAreMaximalRuns(calls: seq<Node>)
    ensures MaximalRuns(Groups(calls)) && Concat(Groups(calls)) == calls
  {
    if calls != [] {
      GroupsAreMaximalRuns(calls[..|calls| - 1]);
      JoinedRuns(Groups(calls[..|calls| - 1]), calls[|calls| - 1]);
    }
  }

  lemma JoinedRuns(groups: seq<seq<Node>>, call: Node)
    requires MaximalRuns(groups)
    ensures MaximalRuns(Joined(groups, call))
    ensures Concat(Joined(groups, call)) == Concat(groups) + [call]
  {
    var n := |groups|;
    assert n > 0 ==> MaximalRun(groups, n - 1);
    var all := Joined(groups, call);
    forall k | 0 <= k < |all| ensures MaximalRun(all, k) {
      if k < n {
        assert MaximalRun(groups, k);
      }
    }
    if |all| == n {
      assert all[..n - 1] == groups[..n - 1];
    } else {
      assert all[..n] == groups;
    }
  }

  function RangeOf(group: seq<Node>): PassRange
    requires group != []
  {
    PassRange(group[0].path, group[0].eid, group[|group| - 1].eid)
  }

  /** The passes of a frame: one for every maximal run of calls. */
  function PassesOf(calls: seq<Node>): (passes: seq<PassRange>)
    ensures |passes| == |Groups(calls)|
  {
    GroupsAreMaximalRuns(calls);
    seq(|Groups(calls)|, k requires 0 <= k < |Groups(calls)| =>
      assert MaximalRun(Groups(calls), k); RangeOf(Groups(calls)[k]))
  }

  /** What one more call does to the passes. */
  function Extended(passes: seq<PassRange>, call: Node): seq<PassRange> {
    if passes != [] && passes[|passes| - 1].name == call.path
    then passes[..|passes| - 1] + [passes[|passes| - 1].(last := call.eid)]
    else passes + [PassRange(call.path, call.eid, call.eid)]
  }

  lemma PassesNext(calls: seq<Node>, call: Node)
    ensures PassesOf(calls + [call]) == Extended(PassesOf(calls), call)
  {
    assert (calls + [call])[..|calls|] == calls;
    var groups := Groups(calls);
    GroupsAreMaximalRuns(calls);
    assert groups != [] ==> MaximalRun(groups, |groups| - 1);
    assert Groups(calls + [call]) == Joined(groups, call);
  }

  method PassesFromActions(rows: seq<Node>) returns (passes: seq<PassRange>)
    ensures passes == PassesOf(Calls(rows))
  {
    passes := [];
    for i := 0 to |rows|
      invariant passes == PassesOf(Calls(rows[..i]))
    {
      assert rows[..i + 1][..i] == rows[..i];
      if !rows[i].call {
        assert Calls(rows[..i]) + [] == Calls(rows[..i]);
        continue;
      }
      PassesNext(Calls(rows[..i]), rows[i]);
      if passes != [] && passes[|passes| - 1].name == rows[i].path {
        passes := passes[..|passes| - 1] + [passes[|passes| - 1].(last := rows[i].eid)];
        continue;
      }
      passes := passes + [PassRange(rows[i].path, rows[i].eid, rows[i].eid)];
    }
    assert rows[..|rows|] == rows;
  }

  // ------------------------------------------------------------------ order

  predicate Increasing(calls: seq<Node>) {
    forall i, j | 0 <= i < j < |calls| :: calls[i].eid < calls[j].eid
  }

  predicate Sorted(passes: seq<PassRange>) {
    forall i, j | 0 <= i < j < |passes| :: passes[i].first <= passes[j].first
  }

  predicate Within(pass: PassRange, id: int) {
    pass.first <= id <= pass.last
  }

  /** A pass that holds any id ends before the next one starts. */
  predicate Apart(passes: seq<PassRange>) {
    forall k | 0 <= k < |passes| - 1 && passes[k].first <= passes[k].last :: passes[k].last < passes[k + 1].first
  }

  predicate Ordered(passes: seq<PassRange>) {
    (forall k | 0 <= k < |passes| :: passes[k].first <= passes[k].last)
    && forall i, j | 0 <= i < j < |passes| :: passes[i].last < passes[j].first
  }

  predicate InSome(passes: seq<PassRange>, id: int) {
    exists k :: 0 <= k < |passes| && Within(passes[k], id)
  }

  lemma ExtendedOrdered(passes: seq<PassRange>, call: Node)
    requires Ordered(passes) && (passes != [] ==> passes[|passes| - 1].last < call.eid)
    ensures var now := Extended(passes, call);
            Ordered(now) && now != [] && now[|now| - 1].last == call.eid && InSome(now, call.eid)
    ensures forall id | InSome(passes, id) :: InSome(Extended(passes, call), id)
  {
    var now := Extended(passes, call);
    assert Within(now[|now| - 1], call.eid);
    forall id | InSome(passes, id) ensures InSome(now, id) {
      var k :| 0 <= k < |passes| && Within(passes[k], id);
      assert Within(now[k], id);
    }
  }

  /** Calls in event order give ordered passes that together hold every call. */
  lemma {:induction false} PassesAreOrdered(calls: seq<Node>)
    requires Increasing(calls)
    ensures Ordered(PassesOf(calls))
    ensures calls != [] ==> PassesOf(calls) != [] && PassesOf(calls)[|PassesOf(calls)| - 1].last == calls[|calls| - 1].eid
    ensures forall c | c in calls :: InSome(PassesOf(calls), c.eid)
  {
    if calls != [] {
      var init, call := calls[..|calls| - 1], calls[|calls| - 1];
      PassesAreOrdered(init);
      PassesNext(init, call);
      assert init + [call] == calls;
      ExtendedOrdered(PassesOf(init), call);
      forall c | c in calls ensures InSome(PassesOf(calls), c.eid) {
        assert c in init || c == call;
      }
    }
  }

  // ------------------------------------------------------------------ the naive fold

  /** The values of one counter inside one pass, in the order of the results. */
  function Values<D>(readings: seq<Reading<D>>, counter: int, pass: PassRange): seq<D> {
    if readings == [] then []
    else
      var last := readings[|readings| - 1];
      Values(readings[..|readings| - 1], counter, pass)
      + if last.counter == counter && Within(pass, last.eid) then [last.value] else []
  }

  function Events(rows: seq<Node>, pass: PassRange): nat {
    if rows == [] then 0
    else
      var last := rows[|rows| - 1];
      Events(rows[..|rows| - 1], pass) + if last.call && Within(pass, last.eid) then 1 else 0
  }

  /** Summed from the left, as the order of floating-point additions is part of the answer. */
  function Sum<D>(ar: Arithmetic<D>, values: seq<D>): D {
    if values == [] then ar.zero else ar.plus(Sum(ar, values[..|values| - 1]), values[|values| - 1])
  }

  function Max<D>(ar: Arithmetic<D>, values: seq<D>): D {
    if values == [] then ar.zero
    else
      var last := values[|values| - 1];
      if |values| == 1 || ar.greater(last, Max(ar, values[..|values| - 1])) then last
      else Max(ar, values[..|values| - 1])
  }

  function CostOf<D>(ar: Arithmetic<D>, index: nat, pass: PassRange, events: nat, values: seq<D>): PassCost<D> {
    PassCost(index, pass.name, pass.first, pass.last, events, |values|, Sum(ar, values), Max(ar, values))
  }

  /** Every result and every call scanned for every pass. */
  function NaiveCosts<D>(ar: Arithmetic<D>, readings: seq<Reading<D>>, counter: int, passes: seq<PassRange>,
                         rows: seq<Node>): seq<PassCost<D>> {
    seq(|passes|, p requires 0 <= p < |passes| =>
      CostOf(ar, p + 1, passes[p], Events(rows, passes[p]), Values(readings, counter, passes[p])))
  }

  // ------------------------------------------------------------------ the bucketed fold

  /** `id` goes to pass `p`: the last one that starts at or before it, if it has not ended. */
  predicate Lands(passes: seq<PassRange>, p: nat, id: int)
    requires p < |passes|
  {
    Within(passes[p], id) && (p + 1 < |passes| ==> id < passes[p + 1].first)
  }

  function Bucket<D>(readings: seq<Reading<D>>, counter: int, passes: seq<PassRange>, p: nat): (at: seq<nat>)
    requires p < |passes|
    ensures forall k | 0 <= k < |at| :: at[k] < |readings|
  {
    if readings == [] then []
    else
      var last := readings[|readings| - 1];
      Bucket(readings[..|readings| - 1], counter, passes, p)
      + if last.counter == counter && Lands(passes, p, last.eid) then [|readings| - 1] else []
  }

  function Landed(rows: seq<Node>, passes: seq<PassRange>, p: nat): nat
    requires p < |passes|
  {
    if rows == [] then 0
    else
      var last := rows[|rows| - 1];
      Landed(rows[..|rows| - 1], passes, p) + if last.call && Lands(passes, p, last.eid) then 1 else 0
  }

  function At<D>(readings: seq<Reading<D>>, at: seq<nat>): seq<D>
    requires forall k | 0 <= k < |at| :: at[k] < |readings|
  {
    seq(|at|, k requires 0 <= k < |at| => readings[at[k]].value)
  }

  function BucketCosts<D>(ar: Arithmetic<D>, readings: seq<Reading<D>>, counter: int, passes: seq<PassRange>,
                          rows: seq<Node>): seq<PassCost<D>> {
    seq(|passes|, p requires 0 <= p < |passes| =>
      CostOf(ar, p + 1, passes[p], Landed(rows, passes, p), At(readings, Bucket(readings, counter, passes, p))))
  }

  /** The first pass that starts after `id`. */
  method UpperBound(passes: seq<PassRange>, id: int) returns (at: nat)
    requires Sorted(passes)
    ensures at <= |passes|
    ensures forall k | 0 <= k < at :: passes[k].first <= id
    ensures forall k | at <= k < |passes| :: id < passes[k].first
  {
    var hi := |passes|;
    at := 0;
    while at < hi
      invariant at <= hi <= |passes|
      invariant forall k | 0 <= k < at :: passes[k].first <= id
      invariant forall k | hi <= k < |passes| :: id < passes[k].first
    {
      var mid := (at + hi) / 2;
      if id < passes[mid].first {
        hi := mid;
      } else {
        at := mid + 1;
      }
    }
  }

  method Home(passes: seq<PassRange>, id: int) returns (found: bool, p: nat)
    requires Sorted(passes)
    ensures found ==> p < |passes|
    ensures forall q | 0 <= q < |passes| :: Lands(passes, q, id) <==> found && q == p
  {
    var at := UpperBound(passes, id);
    found := at > 0 && id <= passes[at - 1].last;
    p := if at > 0 then at - 1 else 0;
  }

  method FillBuckets<D>(readings: seq<Reading<D>>, counter: int, passes: seq<PassRange>) returns (buckets: seq<seq<nat>>)
    requires Sorted(passes)
    ensures |buckets| == |passes|
    ensures forall p | 0 <= p < |passes| :: buckets[p] == Bucket(readings, counter, passes, p)
  {
    buckets := seq(|passes|, _ => []);
    for i := 0 to |readings|
      invariant |buckets| == |passes|
      invariant forall p | 0 <= p < |passes| :: buckets[p] == Bucket(readings[..i], counter, passes, p)
    {
      assert readings[..i + 1][..i] == readings[..i];
      if readings[i].counter != counter {
        continue;
      }
      var found, p := Home(passes, readings[i].eid);
      if found {
        buckets := buckets[p := buckets[p] + [i]];
      }
    }
    assert readings[..|readings|] == readings;
  }

  method CountCalls(rows: seq<Node>, passes: seq<PassRange>) returns (counts: seq<nat>)
    requires Sorted(passes)
    ensures |counts| == |passes|
    ensures forall p | 0 <= p < |passes| :: counts[p] == Landed(rows, passes, p)
  {
    counts := seq(|passes|, _ => 0);
    for i := 0 to |rows|
      invariant |counts| == |passes|
      invariant forall p | 0 <= p < |passes| :: counts[p] == Landed(rows[..i], passes, p)
    {
      assert rows[..i + 1][..i] == rows[..i];
      if !rows[i].call {
        continue;
      }
      var found, p := Home(passes, rows[i].eid);
      if found {
        counts := counts[p := counts[p] + 1];
      }
    }
    assert rows[..|rows|] == rows;
  }

  method FoldBucket<D>(ar: Arithmetic<D>, readings: seq<Reading<D>>, bucket: seq<nat>)
    returns (measured: nat, sum: D, max: D)
    requires forall k | 0 <= k < |bucket| :: bucket[k] < |readings|
    ensures measured == |bucket|
    ensures sum == Sum(ar, At(readings, bucket)) && max == Max(ar, At(readings, bucket))
  {
    measured, sum, max := 0, ar.zero, ar.zero;
    var values := At(readings, bucket);
    for k := 0 to |bucket|
      invariant measured == k
      invariant sum == Sum(ar, values[..k]) && max == Max(ar, values[..k])
    {
      assert values[..k + 1][..k] == values[..k];
      var value := readings[bucket[k]].value;
      sum := ar.plus(sum, value);
      if measured == 0 || ar.greater(value, max) {
        max := value;
      }
      measured := measured + 1;
    }
    assert values[..|bucket|] == values;
  }

  method FoldPassCosts<D>(ar: Arithmetic<D>, readings: seq<Reading<D>>, counter: int, passes: seq<PassRange>,
                          rows: seq<Node>) returns (costs: seq<PassCost<D>>)
    requires Sorted(passes)
    ensures costs == BucketCosts(ar, readings, counter, passes, rows)
  {
    var buckets := FillBuckets(readings, counter, passes);
    var counts := CountCalls(rows, passes);
    costs := [];
    for p := 0 to |passes|
      invariant costs == BucketCosts(ar, readings, counter, passes, rows)[..p]
    {
      var measured, sum, max := FoldBucket(ar, readings, buckets[p]);
      costs := costs + [PassCost(p + 1, passes[p].name, passes[p].first, passes[p].last, counts[p], measured, sum, max)];
    }
  }

  // ------------------------------------------------------------------ buckets against the scan

  lemma {:induction false} BucketIsScan<D>(readings: seq<Reading<D>>, counter: int, passes: seq<PassRange>, p: nat)
    requires p < |passes| && forall id :: Lands(passes, p, id) <==> Within(passes[p], id)
    ensures At(readings, Bucket(readings, counter, passes, p)) == Values(readings, counter, passes[p])
  {
    if readings != [] {
      BucketIsScan(readings[..|readings| - 1], counter, passes, p);
    }
  }

  lemma {:induction false} LandedIsScan(rows: seq<Node>, passes: seq<PassRange>, p: nat)
    requires p < |passes| && forall id :: Lands(passes, p, id) <==> Within(passes[p], id)
    ensures Landed(rows, passes, p) == Events(rows, passes[p])
  {
    if rows != [] {
      LandedIsScan(rows[..|rows| - 1], passes, p);
    }
  }

  /** Passes in order, each over before the next: the buckets give every one the naive scan's cost, summed in the same order. */
  lemma BucketsRefineScan<D>(ar: Arithmetic<D>, readings: seq<Reading<D>>, counter: int, passes: seq<PassRange>,
                             rows: seq<Node>)
    requires Apart(passes)
    ensures BucketCosts(ar, readings, counter, passes, rows) == NaiveCosts(ar, readings, counter, passes, rows)
  {
    forall p | 0 <= p < |passes|
      ensures At(readings, Bucket(readings, counter, passes, p)) == Values(readings, counter, passes[p])
      ensures Landed(rows, passes, p) == Events(rows, passes[p])
    {
      BucketIsScan(readings, counter, passes, p);
      LandedIsScan(rows, passes, p);
    }
  }

  /** And no other passes will do: one that outlasts the start of the next loses a call. */
  lemma ScanNeedsApart<D>(ar: Arithmetic<D>, counter: int, passes: seq<PassRange>) returns (rows: seq<Node>)
    requires !Apart(passes)
    ensures BucketCosts(ar, [], counter, passes, rows) != NaiveCosts(ar, [], counter, passes, rows)
  {
    var k :| 0 <= k < |passes| - 1 && passes[k].first <= passes[k].last && passes[k].last >= passes[k + 1].first;
    rows := [ActionTree.Node(passes[k].last, 0, true, false, "", "")];
    assert rows[..0] == [];
    assert Landed(rows, passes, k) == 0 && Events(rows, passes[k]) == 1;
    assert BucketCosts(ar, [], counter, passes, rows)[k].events == 0;
    assert NaiveCosts(ar, [], counter, passes, rows)[k].events == 1;
  }

  lemma OrderedSuffices(passes: seq<PassRange>)
    requires Ordered(passes)
    ensures Sorted(passes) && Apart(passes)
  {
    forall i, j | 0 <= i < j < |passes| ensures passes[i].first <= passes[j].first {
      assert passes[i].first <= passes[i].last;
    }
  }

  // ------------------------------------------------------------------ what a frame's own passes add up to

  function TotalEvents<D>(costs: seq<PassCost<D>>): nat {
    if costs == [] then 0 else TotalEvents(costs[..|costs| - 1]) + costs[|costs| - 1].events
  }

  /** The calls of each of the first `n` passes, added up. */
  function TotalLanded(rows: seq<Node>, passes: seq<PassRange>, n: nat): nat
    requires n <= |passes|
  {
    if n == 0 then 0 else TotalLanded(rows, passes, n - 1) + Landed(rows, passes, n - 1)
  }

  /** How many of the first `n` passes take `id`. */
  function Homes(passes: seq<PassRange>, n: nat, id: int): nat
    requires n <= |passes|
  {
    if n == 0 then 0 else Homes(passes, n - 1, id) + if Lands(passes, n - 1, id) then 1 else 0
  }

  lemma {:induction false} TotalLandedNext(rows: seq<Node>, row: Node, passes: seq<PassRange>, n: nat)
    requires n <= |passes|
    ensures TotalLanded(rows + [row], passes, n)
            == TotalLanded(rows, passes, n) + if row.call then Homes(passes, n, row.eid) else 0
  {
    if n > 0 {
      TotalLandedNext(rows, row, passes, n - 1);
      assert (rows + [row])[..|rows|] == rows;
    }
  }

  lemma {:induction false} OneHome(passes: seq<PassRange>, n: nat, id: int)
    requires Ordered(passes) && n <= |passes|
    ensures Homes(passes, n, id) == if exists k :: 0 <= k < n && Within(passes[k], id) then 1 else 0
  {
    if n > 0 {
      OneHome(passes, n - 1, id);
      if Within(passes[n - 1], id) {
        assert Lands(passes, n - 1, id);
        forall k | 0 <= k < n - 1 ensures !Within(passes[k], id) {
          assert passes[k].last < passes[n - 1].first;
        }
      } else {
        assert forall k | 0 <= k < n && Within(passes[k], id) :: k < n - 1;
      }
    }
  }

  lemma {:induction false} EveryCallLandsOnce(rows: seq<Node>, passes: seq<PassRange>)
    requires Ordered(passes) && forall c | c in Calls(rows) :: InSome(passes, c.eid)
    ensures TotalLanded(rows, passes, |passes|) == |Calls(rows)|
  {
    if rows == [] {
      NothingLanded(passes, |passes|);
    } else {
      var init, last := rows[..|rows| - 1], rows[|rows| - 1];
      assert rows == init + [last];
      EveryCallLandsOnce(init, passes);
      TotalLandedNext(init, last, passes, |passes|);
      if last.call {
        assert last in Calls(rows);
        OneHome(passes, |passes|, last.eid);
      }
    }
  }

  lemma {:induction false} NothingLanded(passes: seq<PassRange>, n: nat)
    requires n <= |passes|
    ensures TotalLanded([], passes, n) == 0
  {
    if n > 0 {
      NothingLanded(passes, n - 1);
    }
  }

  lemma {:induction false} TotalOfCosts<D>(ar: Arithmetic<D>, readings: seq<Reading<D>>, counter: int,
                                           passes: seq<PassRange>, rows: seq<Node>, n: nat)
    requires n <= |passes|
    ensures TotalEvents(BucketCosts(ar, readings, counter, passes, rows)[..n]) == TotalLanded(rows, passes, n)
  {
    if n > 0 {
      TotalOfCosts(ar, readings, counter, passes, rows, n - 1);
      var costs := BucketCosts(ar, readings, counter, passes, rows);
      assert costs[..n][..n - 1] == costs[..n - 1];
    }
  }

  /** A frame whose calls are in event order: its own passes cost what the naive scan says, and hold every call once. */
  lemma FrameCosts<D>(ar: Arithmetic<D>, readings: seq<Reading<D>>, counter: int, rows: seq<Node>)
    requires Increasing(Calls(rows))
    ensures var passes := PassesOf(Calls(rows));
            Sorted(passes)
            && BucketCosts(ar, readings, counter, passes, rows) == NaiveCosts(ar, readings, counter, passes, rows)
            && TotalEvents(BucketCosts(ar, readings, counter, passes, rows)) == |Calls(rows)|
  {
    var passes := PassesOf(Calls(rows));
    PassesAreOrdered(Calls(rows));
    OrderedSuffices(passes);
    BucketsRefineScan(ar, readings, counter, passes, rows);
    EveryCallLandsOnce(rows, passes);
    TotalOfCosts(ar, readings, counter, passes, rows, |passes|);
    var costs := BucketCosts(ar, readings, counter, passes, rows);
    assert costs[..|passes|] == costs;
  }

  // ------------------------------------------------------------------ what a row's numbers mean

  /** A comparison as floating point has it: nothing exceeds itself, exceeding is transitive, and so is not being told
      apart. */
  ghost predicate Compares<D(!new)>(greater: (D, D) -> bool) {
    && (forall x :: !greater(x, x))
    && (forall x, y, z | greater(x, y) && greater(y, z) :: greater(x, z))
    && forall x, y, z | !greater(x, y) && !greater(y, z) :: !greater(x, z)
  }

  /** The maximum is one of the values, and none of them exceeds it. */
  lemma {:induction false} MaxIsGreatest<D(!new)>(ar: Arithmetic<D>, values: seq<D>)
    requires Compares(ar.greater) && values != []
    ensures Max(ar, values) in values
    ensures forall k | 0 <= k < |values| :: !ar.greater(values[k], Max(ar, values))
  {
    var init, last := values[..|values| - 1], values[|values| - 1];
    if init != [] {
      MaxIsGreatest(ar, init);
      forall k | 0 <= k < |values| ensures !ar.greater(values[k], Max(ar, values)) {
        if k < |init| {
          assert values[k] == init[k] && !ar.greater(init[k], Max(ar, init));
        }
      }
    }
  }

  /** No values sum up to zero, and one more is one more addition, behind all before it. */
  lemma SumGoesOn<D>(ar: Arithmetic<D>, values: seq<D>, value: D)
    ensures Sum(ar, []) == ar.zero && Sum(ar, values + [value]) == ar.plus(Sum(ar, values), value)
  {
    assert (values + [value])[..|values|] == values;
  }

  /** A bucket holds the results of the counter that land in its pass, each once and in the order of the results. */
  lemma {:induction false} BucketIsExact<D>(readings: seq<Reading<D>>, counter: int, passes: seq<PassRange>, p: nat)
    requires p < |passes|
    ensures var at := Bucket(readings, counter, passes, p);
            && (forall k, l | 0 <= k < l < |at| :: at[k] < at[l])
            && forall i: nat :: i in at
                 <==> i < |readings| && readings[i].counter == counter
                      && passes[p].first <= readings[i].eid <= passes[p].last
                      && (p + 1 < |passes| ==> readings[i].eid < passes[p + 1].first)
  {
    if readings != [] {
      var n := |readings| - 1;
      BucketIsExact(readings[..n], counter, passes, p);
      LaterPlace(Bucket(readings[..n], counter, passes, p), n);
      BucketNext(readings, counter, passes, p);
    }
  }

  lemma BucketNext<D>(readings: seq<Reading<D>>, counter: int, passes: seq<PassRange>, p: nat)
    requires p < |passes| && readings != []
    ensures var n := |readings| - 1;
            Bucket(readings, counter, passes, p)
            == if readings[n].counter == counter && Lands(passes, p, readings[n].eid)
               then Bucket(readings[..n], counter, passes, p) + [n] else Bucket(readings[..n], counter, passes, p)
  {
    var before := Bucket(readings[..|readings| - 1], counter, passes, p);
    assert before + [] == before;
  }

  /** The calls that land in a pass. */
  ghost function CallsIn(rows: seq<Node>, passes: seq<PassRange>, p: nat): set<nat>
    requires p < |passes|
  {
    set i: nat | i < |rows| && rows[i].call && passes[p].first <= rows[i].eid <= passes[p].last
                 && (p + 1 < |passes| ==> rows[i].eid < passes[p + 1].first)
  }

  lemma {:induction false} LandedIsCount(rows: seq<Node>, passes: seq<PassRange>, p: nat)
    requires p < |passes|
    ensures Landed(rows, passes, p) == |CallsIn(rows, passes, p)|
  {
    if rows == [] {
      assert CallsIn(rows, passes, p) == {};
    } else {
      LandedIsCount(rows[..|rows| - 1], passes, p);
      CallsNext(rows, passes, p);
    }
  }

  lemma CallsNext(rows: seq<Node>, passes: seq<PassRange>, p: nat)
    requires p < |passes| && rows != []
    ensures var n := |rows| - 1;
            |CallsIn(rows, passes, p)|
            == |CallsIn(rows[..n], passes, p)| + if rows[n].call && Lands(passes, p, rows[n].eid) then 1 else 0
  {
    var n := |rows| - 1;
    var before := CallsIn(rows[..n], passes, p);
    assert n !in before;
    assert CallsIn(rows, passes, p) == if rows[n].call && Lands(passes, p, rows[n].eid) then before + {n} else before;
  }

  /** A pass's row: its own number, name and range, the calls that land in it, and of the results that do how many
      they are, their sum from the left and, when there are any, one that none of them exceeds. */
  lemma CostTells<D(!new)>(ar: Arithmetic<D>, readings: seq<Reading<D>>, counter: int, passes: seq<PassRange>,
                           rows: seq<Node>, p: nat)
    requires p < |passes| && Compares(ar.greater)
    ensures var cost, values := BucketCosts(ar, readings, counter, passes, rows)[p],
                                At(readings, Bucket(readings, counter, passes, p));
            && cost.index == p + 1 && PassRange(cost.name, cost.first, cost.last) == passes[p]
            && cost.events == |CallsIn(rows, passes, p)| && cost.measured == |values| && cost.sum == Sum(ar, values)
            && (values != [] ==> cost.max in values && forall k | 0 <= k < |values| :: !ar.greater(values[k], cost.max))
  {
    LandedIsCount(rows, passes, p);
    var values := At(readings, Bucket(readings, counter, passes, p));
    if values != [] {
      MaxIsGreatest(ar, values);
    }
  }
}
