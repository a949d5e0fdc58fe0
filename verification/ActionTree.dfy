/**
 The action tree, flattened to rows with depths, and the passes that later code recovers from the
 depths alone (src/cpp/actions.cpp, src/cpp/commands_image.cpp).
 */
module ActionTree {
  import opened Basics

  /** An action; `push` says it opens a marker, `call` that it is a draw, dispatch, copy and so on. */
  datatype Action = Action(eid: int, call: bool, push: bool, name: string, children: seq<Action>)

  datatype Node = Node(eid: int, depth: nat, call: bool, marker: bool, name: string, path: string)

  const MAX_DEPTH := 64

  function Nested(prefix: string, name: string): string {
    if prefix == "" then name else prefix + " > " + name
  }

  function NodeOf(a: Action, prefix: string, depth: nat): Node {
    Node(a.eid, depth, a.call, a.push, a.name, prefix)
  }

  function Below(a: Action, depth: nat): nat {
    if a.push then depth + 1 else depth
  }

  function Inside(a: Action, prefix: string): string {
    if a.push then Nested(prefix, a.name) else prefix
  }

  /** The rows of a forest in preorder, as far as the depth limit lets the walk go. */
  function Flat(actions: seq<Action>, prefix: string, depth: nat): seq<Node>
    decreases actions
  {
    if actions == [] || depth >= MAX_DEPTH then []
    else
      var a := actions[0];
      [NodeOf(a, prefix, depth)]
      + (Flat(a.children, Inside(a, prefix), Below(a, depth)) + Flat(actions[1..], prefix, depth))
  }

  /** The walk meets the depth limit somewhere: what the truncation flag reports. */
  predicate Cut(actions: seq<Action>, depth: nat)
    decreases actions
  {
    depth >= MAX_DEPTH || (actions != [] && (Cut(actions[0].children, Below(actions[0], depth)) || Cut(actions[1..], depth)))
  }

  /** How many markers deep the forest goes. */
  function Height(actions: seq<Action>): nat
    decreases actions
  {
    if actions == [] then 0
    else
      var first := Below(actions[0], Height(actions[0].children));
      var rest := Height(actions[1..]);
      if first >= rest then first else rest
  }

  function Size(actions: seq<Action>): nat
    decreases actions
  {
    if actions == [] then 0 else 1 + Size(actions[0].children) + Size(actions[1..])
  }

  /** The flag goes up exactly for markers nested as deep as the limit; without it every action has its row. */
  lemma {:induction false} FlagTellsHeight(actions: seq<Action>, prefix: string, depth: nat)
    ensures Cut(actions, depth) <==> depth + Height(actions) >= MAX_DEPTH
    ensures !Cut(actions, depth) ==> |Flat(actions, prefix, depth)| == Size(actions)
    ensures |Flat(actions, prefix, depth)| <= Size(actions)
    decreases actions
  {
    if actions != [] {
      var a := actions[0];
      FlagTellsHeight(a.children, Inside(a, prefix), Below(a, depth));
      FlagTellsHeight(actions[1..], prefix, depth);
    }
  }

  /** Some action sits at the depth limit or deeper: one that the walk never comes to. */
  predicate Beyond(actions: seq<Action>, depth: nat)
    decreases actions
  {
    actions != []
    && (depth >= MAX_DEPTH || Beyond(actions[0].children, Below(actions[0], depth)) || Beyond(actions[1..], depth))
  }

  /** Rows are missing exactly when an action sits beyond the limit, and then the flag is up: the flag is a
      false alarm when markers nest to the limit and nothing is in the deepest ones. */
  lemma {:induction false} RowsLostBeyond(actions: seq<Action>, prefix: string, depth: nat)
    ensures |Flat(actions, prefix, depth)| == Size(actions) <==> !Beyond(actions, depth)
    ensures |Flat(actions, prefix, depth)| <= Size(actions)
    ensures Beyond(actions, depth) ==> Cut(actions, depth)
    decreases actions
  {
    if actions != [] {
      var a := actions[0];
      RowsLostBeyond(a.children, Inside(a, prefix), Below(a, depth));
      RowsLostBeyond(actions[1..], prefix, depth);
    }
  }

  /** `n` markers, each inside the one before. */
  function Chain(n: nat): (actions: seq<Action>)
    ensures Height(actions) == Size(actions) == n
  {
    if n == 0 then [] else [Action(n, false, true, "pass", Chain(n - 1))]
  }

  /** The flag can go up with every row written: the deepest marker here has nothing in it. */
  lemma {:induction false} FlagWithoutLoss(n: nat, prefix: string)
    requires n <= MAX_DEPTH
    ensures Cut(Chain(n), MAX_DEPTH - n)
    ensures |Flat(Chain(n), prefix, MAX_DEPTH - n)| == Size(Chain(n))
  {
    FlagTellsHeight(Chain(n), prefix, MAX_DEPTH - n);
    if n > 0 {
      FlagWithoutLoss(n - 1, Inside(Chain(n)[0], prefix));
      assert Chain(n)[1..] == [];
    }
  }

  lemma {:induction false} ChainBeyond(n: nat, depth: nat)
    ensures Beyond(Chain(n), depth) <==> n > 0 && depth + n > 64
  {
    if n > 0 {
      ChainBeyond(n - 1, depth + 1);
      assert Chain(n)[1..] == [];
    }
  }

  /** So markers that nest 64 deep have all their rows, and 65 do not. */
  lemma ChainIsLost(n: nat, prefix: string)
    ensures |Flat(Chain(n), prefix, 0)| == n <==> n <= 64
  {
    ChainBeyond(n, 0);
    RowsLostBeyond(Chain(n), prefix, 0);
  }

  /** The rows of the first action and its subtree, appended to what was there before. */
  lemma FlatNext(actions: seq<Action>, prefix: string, depth: nat, before: seq<Node>)
    requires actions != [] && depth < MAX_DEPTH
    ensures var a := actions[0];
            ((before + [NodeOf(a, prefix, depth)]) + Flat(a.children, Inside(a, prefix), Below(a, depth)))
            + Flat(actions[1..], prefix, depth)
            == before + Flat(actions, prefix, depth)
  {
    var a := actions[0];
    Append([NodeOf(a, prefix, depth)], Flat(a.children, Inside(a, prefix), Below(a, depth)),
           Flat(actions[1..], prefix, depth), before);
  }

  lemma Append<T>(head: seq<T>, inner: seq<T>, after: seq<T>, before: seq<T>)
    ensures ((before + head) + inner) + after == before + (head + (inner + after))
  {
  }

  /** The walk with its two out-parameters. */
  class Collector {
    var rows: seq<Node>
    var truncated: bool

    constructor ()
      ensures rows == [] && !truncated
    {
      rows, truncated := [], false;
    }

    method CollectActionNodes(actions: seq<Action>, prefix: string, depth: nat)
      modifies this
      ensures rows == old(rows) + Flat(actions, prefix, depth)
      ensures truncated <==> old(truncated) || Cut(actions, depth)
      decreases actions
    {
      if depth >= MAX_DEPTH {
        truncated := true;
        return;
      }
      for i := 0 to |actions|
        invariant rows + Flat(actions[i..], prefix, depth) == old(rows) + Flat(actions, prefix, depth)
        invariant truncated || Cut(actions[i..], depth) <==> old(truncated) || Cut(actions, depth)
      {
        var action := actions[i];
        assert actions[i..][0] == action && actions[i..][1..] == actions[i + 1..];
        FlatNext(actions[i..], prefix, depth, rows);
        rows := rows + [NodeOf(action, prefix, depth)];
        CollectActionNodes(action.children, Inside(action, prefix), Below(action, depth));
      }
      assert actions[|actions|..] == [] && actions[0..] == actions;
    }
  }

  // ------------------------------------------------------------------ passes from the rows

  /** A marker with calls under it. */
  datatype SheetPass = SheetPass(markerEid: int, imageEid: int, depth: nat, calls: seq<int>, name: string, path: string)

  function CallEids(rows: seq<Node>): seq<int> {
    if rows == [] then [] else (if rows[0].call then [rows[0].eid] else []) + CallEids(rows[1..])
  }

  /** The rows up to the first one that is not deeper. */
  function Deeper(rows: seq<Node>, depth: nat): seq<Node> {
    if rows == [] || rows[0].depth <= depth then [] else [rows[0]] + Deeper(rows[1..], depth)
  }

  /** The pass of a marker row with the given calls; a heading without calls is none. */
  function PassOf(marker: Node, calls: seq<int>): seq<SheetPass> {
    if calls == [] || calls[|calls| - 1] == 0 then []
    else [SheetPass(marker.eid, calls[|calls| - 1], marker.depth, calls, marker.name, Nested(marker.path, marker.name))]
  }

  function Passes(rows: seq<Node>): seq<SheetPass> {
    if rows == [] then []
    else
      (if rows[0].marker then PassOf(rows[0], CallEids(Deeper(rows[1..], rows[0].depth))) else []) + Passes(rows[1..])
  }

  lemma {:induction false} CallEidsConcat(xs: seq<Node>, ys: seq<Node>)
    ensures CallEids(xs + ys) == CallEids(xs) + CallEids(ys)
  {
    if xs == [] {
      assert xs + ys == ys;
    } else {
      assert (xs + ys)[1..] == xs[1..] + ys;
      CallEidsConcat(xs[1..], ys);
      Append(if xs[0].call then [xs[0].eid] else [], CallEids(xs[1..]), CallEids(ys), []);
    }
  }

  lemma CallEidsNext(rows: seq<Node>, i: nat, j: nat)
    requires i <= j < |rows|
    ensures CallEids(rows[i..j + 1]) == CallEids(rows[i..j]) + if rows[j].call then [rows[j].eid] else []
  {
    assert rows[i..j + 1] == rows[i..j] + [rows[j]];
    CallEidsConcat(rows[i..j], [rows[j]]);
    assert [rows[j]][1..] == [];
  }

  /** The scan from row `i` to row `j`, the first that is not deeper. */
  lemma {:induction false} DeeperIs(rows: seq<Node>, i: nat, j: nat, depth: nat)
    requires i <= j <= |rows| && forall k | i <= k < j :: rows[k].depth > depth
    requires j < |rows| ==> rows[j].depth <= depth
    ensures Deeper(rows[i..], depth) == rows[i..j]
    decreases j - i
  {
    if i < j {
      assert rows[i..][1..] == rows[i + 1..];
      DeeperIs(rows, i + 1, j, depth);
      assert rows[i..j] == [rows[i]] + rows[i + 1..j];
    }
  }

  /** The calls below row `i`: the scan while the rows are deeper. */
  method CallsBelow(rows: seq<Node>, i: nat) returns (calls: seq<int>)
    requires i < |rows|
    ensures calls == CallEids(Deeper(rows[i + 1..], rows[i].depth))
  {
    var depth, j := rows[i].depth, i + 1;
    calls := [];
    while j < |rows| && rows[j].depth > depth
      invariant i + 1 <= j <= |rows|
      invariant forall k | i + 1 <= k < j :: rows[k].depth > depth
      invariant calls == CallEids(rows[i + 1..j])
    {
      CallEidsNext(rows, i + 1, j);
      if rows[j].call {
        calls := calls + [rows[j].eid];
      }
      j := j + 1;
    }
    DeeperIs(rows, i + 1, j, depth);
  }

  /** The passes up to row `i`, and the one that row may be. */
  lemma PassesFrom(passes: seq<SheetPass>, rows: seq<Node>, i: nat) returns (found: seq<SheetPass>)
    requires i < |rows|
    ensures found == if rows[i].marker then PassOf(rows[i], CallEids(Deeper(rows[i + 1..], rows[i].depth))) else []
    ensures (passes + found) + Passes(rows[i + 1..]) == passes + Passes(rows[i..])
    ensures passes + [] == passes
  {
    found := if rows[i].marker then PassOf(rows[i], CallEids(Deeper(rows[i + 1..], rows[i].depth))) else [];
    assert rows[i..][0] == rows[i] && rows[i..][1..] == rows[i + 1..];
    Assoc(passes, found, Passes(rows[i + 1..]));
  }

  method PassList(rows: seq<Node>) returns (passes: seq<SheetPass>)
    ensures passes == Passes(rows)
  {
    passes := [];
    for i: nat := 0 to |rows|
      invariant passes + Passes(rows[i..]) == Passes(rows)
    {
      ghost var found := PassesFrom(passes, rows, i);
      if !rows[i].marker {
        continue;
      }
      var calls := CallsBelow(rows, i);
      var lastCall := if calls == [] then 0 else calls[|calls| - 1];
      if lastCall == 0 {
        continue;
      }
      var path := rows[i].path;
      if path != "" {
        path := path + " > ";
      }
      path := path + rows[i].name;
      assert path == Nested(rows[i].path, rows[i].name);
      var pass := SheetPass(rows[i].eid, lastCall, rows[i].depth, calls, rows[i].name, path);
      assert found == [pass];
      passes := passes + [pass];
    }
    assert rows[|rows|..] == [];
  }

  // ------------------------------------------------------------------ passes from the tree

  /** The calls of a forest in preorder. */
  function TreeCalls(actions: seq<Action>): seq<int>
    decreases actions
  {
    if actions == [] then []
    else (if actions[0].call then [actions[0].eid] else []) + (TreeCalls(actions[0].children) + TreeCalls(actions[1..]))
  }

  /** The passes of a forest, read off the tree: every marker with the calls of its own subtree. */
  function TreePasses(actions: seq<Action>, prefix: string, depth: nat): seq<SheetPass>
    decreases actions
  {
    if actions == [] then []
    else
      var a := actions[0];
      (if a.push then PassOf(NodeOf(a, prefix, depth), TreeCalls(a.children)) else [])
      + (TreePasses(a.children, Inside(a, prefix), Below(a, depth)) + TreePasses(actions[1..], prefix, depth))
  }

  /** A forest's rows are at its own depth or deeper, the first one at its own. */
  lemma {:induction false} FlatDepths(actions: seq<Action>, prefix: string, depth: nat)
    ensures forall k | 0 <= k < |Flat(actions, prefix, depth)| :: Flat(actions, prefix, depth)[k].depth >= depth
    ensures Flat(actions, prefix, depth) != [] ==> Flat(actions, prefix, depth)[0].depth == depth
    decreases actions
  {
    if actions != [] && depth < MAX_DEPTH {
      var a := actions[0];
      FlatDepths(a.children, Inside(a, prefix), Below(a, depth));
      FlatDepths(actions[1..], prefix, depth);
    }
  }

  lemma {:induction false} FlatCalls(actions: seq<Action>, prefix: string, depth: nat)
    requires !Cut(actions, depth)
    ensures CallEids(Flat(actions, prefix, depth)) == TreeCalls(actions)
    decreases actions
  {
    if actions != [] {
      var a := actions[0];
      var inner := Flat(a.children, Inside(a, prefix), Below(a, depth));
      var after := Flat(actions[1..], prefix, depth);
      FlatCalls(a.children, Inside(a, prefix), Below(a, depth));
      FlatCalls(actions[1..], prefix, depth);
      CallEidsConcat(inner, after);
      assert ([NodeOf(a, prefix, depth)] + (inner + after))[1..] == inner + after;
    }
  }

  /** Scanning depths over a flattened forest, with shallower rows behind it, finds the tree's passes. */
  lemma {:induction false} ScanFindsTree(actions: seq<Action>, prefix: string, depth: nat, tail: seq<Node>)
    requires !Cut(actions, depth) && (tail == [] || tail[0].depth <= depth)
    ensures Passes(Flat(actions, prefix, depth) + tail) == TreePasses(actions, prefix, depth) + Passes(tail)
    decreases actions
  {
    if actions == [] {
      assert Flat(actions, prefix, depth) + tail == tail;
      assert TreePasses(actions, prefix, depth) + Passes(tail) == Passes(tail);
    } else {
      var a := actions[0];
      var inner := Flat(a.children, Inside(a, prefix), Below(a, depth));
      var after := Flat(actions[1..], prefix, depth) + tail;
      ScanFindsTree(actions[1..], prefix, depth, tail);
      FlatDepths(actions[1..], prefix, depth);
      ScanFindsTree(a.children, Inside(a, prefix), Below(a, depth), after);
      Regroup([NodeOf(a, prefix, depth)], inner, Flat(actions[1..], prefix, depth), tail);
      PassesCons(NodeOf(a, prefix, depth), inner + after);
      if a.push {
        MarkerScan(a, prefix, depth, after);
      }
      Regroup(if a.push then PassOf(NodeOf(a, prefix, depth), TreeCalls(a.children)) else [],
              TreePasses(a.children, Inside(a, prefix), Below(a, depth)), TreePasses(actions[1..], prefix, depth),
              Passes(tail));
    }
  }

  lemma PassesCons(head: Node, rest: seq<Node>)
    ensures Passes([head] + rest)
            == (if head.marker then PassOf(head, CallEids(Deeper(rest, head.depth))) else []) + Passes(rest)
  {
    assert ([head] + rest)[1..] == rest;
  }

  lemma Regroup<T>(a: seq<T>, b: seq<T>, c: seq<T>, d: seq<T>)
    ensures a + (b + (c + d)) == (a + (b + c)) + d
  {
  }

  /** The scan from a marker row stops exactly where the marker's subtree does. */
  lemma MarkerScan(a: Action, prefix: string, depth: nat, after: seq<Node>)
    requires a.push && !Cut(a.children, depth + 1) && (after == [] || after[0].depth <= depth)
    ensures CallEids(Deeper(Flat(a.children, Nested(prefix, a.name), depth + 1) + after, depth)) == TreeCalls(a.children)
  {
    var inner := Flat(a.children, Nested(prefix, a.name), depth + 1);
    FlatDepths(a.children, Nested(prefix, a.name), depth + 1);
    DeeperIs(inner + after, 0, |inner|, depth);
    assert (inner + after)[0..] == inner + after && (inner + after)[0..|inner|] == inner;
    FlatCalls(a.children, Nested(prefix, a.name), depth + 1);
  }

  /** For every forest the walk does not truncate, the flat scan recovers exactly the tree's passes. */
  lemma FlatScanRecoversTree(actions: seq<Action>)
    requires !Cut(actions, 0)
    ensures Passes(Flat(actions, "", 0)) == TreePasses(actions, "", 0)
  {
    ScanFindsTree(actions, "", 0, []);
    assert Flat(actions, "", 0) + [] == Flat(actions, "", 0);
    assert TreePasses(actions, "", 0) + [] == TreePasses(actions, "", 0);
  }

  // ------------------------------------------------------------------ what a row and a pass hold

  /** The actions of a forest in preorder. */
  function Preorder(actions: seq<Action>): seq<Action>
    decreases actions
  {
    if actions == [] then [] else [actions[0]] + (Preorder(actions[0].children) + Preorder(actions[1..]))
  }

  /** The row of an action: its own event, whether it is a call and a marker, and its name. */
  predicate RowOf(row: Node, a: Action) {
    row.eid == a.eid && row.call == a.call && row.marker == a.push && row.name == a.name
  }

  predicate RowsOf(rows: seq<Node>, actions: seq<Action>) {
    |rows| == |actions| && forall k | 0 <= k < |rows| :: RowOf(rows[k], actions[k])
  }

  /** Without truncation the rows are those of the actions in preorder. */
  lemma {:induction false} FlatIsPreorder(actions: seq<Action>, prefix: string, depth: nat)
    requires !Cut(actions, depth)
    ensures RowsOf(Flat(actions, prefix, depth), Preorder(actions))
    decreases actions
  {
    if actions != [] {
      var a := actions[0];
      FlatIsPreorder(a.children, Inside(a, prefix), Below(a, depth));
      FlatIsPreorder(actions[1..], prefix, depth);
      RowsJoin(NodeOf(a, prefix, depth), Flat(a.children, Inside(a, prefix), Below(a, depth)), Flat(actions[1..], prefix, depth),
               a, Preorder(a.children), Preorder(actions[1..]));
    }
  }

  lemma RowsJoin(head: Node, inner: seq<Node>, after: seq<Node>, a: Action, xs: seq<Action>, ys: seq<Action>)
    requires RowOf(head, a) && RowsOf(inner, xs) && RowsOf(after, ys)
    ensures RowsOf([head] + (inner + after), [a] + (xs + ys))
  {
  }

  /** Row `k` is inside marker row `i`: behind it, and nothing up to it is as shallow as the marker. */
  predicate Inner(rows: seq<Node>, i: nat, k: nat) {
    i < k < |rows| && forall m | i < m <= k :: rows[m].depth > rows[i].depth
  }

  /** The calls inside row `i`, by their places in order: `at[t]` is the `t`-th of them. */
  ghost predicate CallsInside(rows: seq<Node>, i: nat, calls: seq<int>, at: seq<nat>) {
    && |at| == |calls| && (forall t, u | 0 <= t < u < |at| :: at[t] < at[u])
    && (forall t | 0 <= t < |at| :: at[t] < |rows| && rows[at[t]].eid == calls[t])
    && forall k: nat :: k in at <==> Inner(rows, i, k) && rows[k].call
  }

  /** The first row behind `i` that is not inside it. */
  function InnerEnd(rows: seq<Node>, i: nat, j: nat): (end: nat)
    requires i < j <= |rows| && forall m | i < m < j :: rows[m].depth > rows[i].depth
    ensures j <= end <= |rows| && (forall m | i < m < end :: rows[m].depth > rows[i].depth)
    ensures end < |rows| ==> rows[end].depth <= rows[i].depth
    decreases |rows| - j
  {
    if j == |rows| || rows[j].depth <= rows[i].depth then j else InnerEnd(rows, i, j + 1)
  }

  lemma InnerIsBefore(rows: seq<Node>, i: nat)
    requires i < |rows|
    ensures forall k: nat :: Inner(rows, i, k) <==> i < k < InnerEnd(rows, i, i + 1)
  {
  }

  /** The places of the calls between `i` and `j`, and their events. */
  ghost predicate CallsAt(rows: seq<Node>, i: nat, j: nat, at: seq<nat>, calls: seq<int>)
    requires j <= |rows|
  {
    && |at| == |calls| && (forall t, u | 0 <= t < u < |at| :: at[t] < at[u])
    && (forall t | 0 <= t < |at| :: at[t] < j && rows[at[t]].eid == calls[t])
    && forall k: nat :: k in at <==> i < k < j && rows[k].call
  }

  lemma CallsAtNext(rows: seq<Node>, i: nat, j: nat, at: seq<nat>, calls: seq<int>)
    requires i < j < |rows| && CallsAt(rows, i, j, at, calls)
    ensures rows[j].call ==> CallsAt(rows, i, j + 1, at + [j], calls + [rows[j].eid])
    ensures !rows[j].call ==> CallsAt(rows, i, j + 1, at, calls + [])
  {
    LaterPlace(at, j);
    assert calls + [] == calls;
  }

  lemma {:induction false} CallPlaces(rows: seq<Node>, i: nat, j: nat) returns (at: seq<nat>)
    requires i < j <= |rows|
    ensures CallsAt(rows, i, j, at, CallEids(rows[i + 1..j]))
    decreases j
  {
    if j == i + 1 {
      at := [];
      assert rows[i + 1..j] == [];
    } else {
      at := CallPlaces(rows, i, j - 1);
      CallEidsNext(rows, i + 1, j - 1);
      CallsAtNext(rows, i, j - 1, at, CallEids(rows[i + 1..j - 1]));
      at := if rows[j - 1].call then at + [j - 1] else at;
    }
  }

  /** The calls that the depth scan collects for a row are those inside it, in order. */
  lemma CallsBelowAre(rows: seq<Node>, i: nat) returns (at: seq<nat>)
    requires i < |rows|
    ensures CallsInside(rows, i, CallEids(Deeper(rows[i + 1..], rows[i].depth)), at)
  {
    var end := InnerEnd(rows, i, i + 1);
    DeeperIs(rows, i + 1, end, rows[i].depth);
    at := CallPlaces(rows, i, end);
    InnerIsBefore(rows, i);
  }

  /** A marker row with a call inside, the last of which is not event 0. */
  ghost predicate Heads(rows: seq<Node>, i: nat) {
    i < |rows| && rows[i].marker
    && exists k: nat :: LastCall(rows, i, k) && rows[k].eid != 0
  }

  predicate LastCall(rows: seq<Node>, i: nat, k: nat) {
    Inner(rows, i, k) && rows[k].call && forall m | k < m < |rows| && Inner(rows, i, m) :: !rows[m].call
  }

  /** What a pass holds: the event, depth and name of its marker row; the path of that row and its name behind; the
      calls inside it in order; and the last of them as the one whose picture is shown. */
  ghost predicate PassTells(pass: SheetPass, rows: seq<Node>, i: nat) {
    && i < |rows| && pass.markerEid == rows[i].eid && pass.depth == rows[i].depth && pass.name == rows[i].name
    && pass.path == (if rows[i].path == "" then rows[i].name else rows[i].path + " > " + rows[i].name)
    && pass.calls != [] && (exists at :: CallsInside(rows, i, pass.calls, at))
    && exists k: nat :: LastCall(rows, i, k) && pass.imageEid == rows[k].eid
  }

  lemma LastPlace(rows: seq<Node>, i: nat, calls: seq<int>, at: seq<nat>)
    requires CallsInside(rows, i, calls, at) && calls != []
    ensures LastCall(rows, i, at[|at| - 1]) && rows[at[|at| - 1]].eid == calls[|calls| - 1]
  {
    var k := at[|at| - 1];
    assert k in at;
    forall m: nat | Inner(rows, i, m) && rows[m].call ensures m <= k {
      assert m in at;
      var t :| 0 <= t < |at| && at[t] == m;
    }
  }

  lemma HeadsByCalls(rows: seq<Node>, i: nat, calls: seq<int>, at: seq<nat>)
    requires i < |rows| && CallsInside(rows, i, calls, at)
    ensures Heads(rows, i) <==> rows[i].marker && calls != [] && calls[|calls| - 1] != 0
  {
    if calls != [] {
      LastPlace(rows, i, calls, at);
    }
    if Heads(rows, i) {
      var k: nat :| LastCall(rows, i, k) && rows[k].eid != 0;
      assert k in at;
      var t :| 0 <= t < |at| && at[t] == k;
      assert at[|at| - 1] in at;
    }
  }

  /** The pass of one marker row, if it has one. */
  lemma PassHolds(rows: seq<Node>, i: nat)
    requires i < |rows|
    ensures var found := if rows[i].marker then PassOf(rows[i], CallEids(Deeper(rows[i + 1..], rows[i].depth))) else [];
            if Heads(rows, i) then |found| == 1 && PassTells(found[0], rows, i) else found == []
  {
    var calls := CallEids(Deeper(rows[i + 1..], rows[i].depth));
    var at := CallsBelowAre(rows, i);
    HeadsByCalls(rows, i, calls, at);
    if calls != [] {
      LastPlace(rows, i, calls, at);
    }
  }

  /** The places, from row `i` on, of the marker rows that head a pass, and their passes. */
  ghost predicate PassesAt(rows: seq<Node>, i: nat, at: seq<nat>, passes: seq<SheetPass>) {
    && |at| == |passes| && (forall t, u | 0 <= t < u < |at| :: at[t] < at[u])
    && (forall k: nat :: k in at <==> i <= k && Heads(rows, k))
    && forall t | 0 <= t < |at| :: PassTells(passes[t], rows, at[t])
  }

  lemma OneMoreMember(i: nat, at: seq<nat>)
    ensures forall k: nat :: k in [i] + at <==> k == i || k in at
  {
  }

  lemma OneMoreFirst(i: nat, at: seq<nat>)
    requires (forall t, u | 0 <= t < u < |at| :: at[t] < at[u]) && forall k: nat | k in at :: i < k
    ensures forall t, u | 0 <= t < u < |[i] + at| :: ([i] + at)[t] < ([i] + at)[u]
  {
    assert forall t | 0 <= t < |at| :: at[t] in at;
  }

  lemma AllTell<T>(tells: (T, nat) -> bool, i: nat, at: seq<nat>, passes: seq<T>, pass: T)
    requires |at| == |passes| && tells(pass, i) && forall t | 0 <= t < |at| :: tells(passes[t], at[t])
    ensures forall t | 0 <= t < |[i] + at| :: tells(([pass] + passes)[t], ([i] + at)[t])
  {
  }

  lemma OneMorePass(rows: seq<Node>, i: nat, at: seq<nat>, passes: seq<SheetPass>, pass: SheetPass)
    requires Heads(rows, i) && PassTells(pass, rows, i) && PassesAt(rows, i + 1, at, passes)
    ensures PassesAt(rows, i, [i] + at, [pass] + passes)
  {
    OneMoreMember(i, at);
    OneMoreFirst(i, at);
    AllTell((p: SheetPass, k: nat) => PassTells(p, rows, k), i, at, passes, pass);
  }

  lemma NoMorePass(rows: seq<Node>, i: nat, at: seq<nat>, passes: seq<SheetPass>)
    requires !Heads(rows, i) && PassesAt(rows, i + 1, at, passes)
    ensures PassesAt(rows, i, at, passes)
  {
  }

  lemma {:induction false} PassPlaces(rows: seq<Node>, i: nat) returns (at: seq<nat>)
    requires i <= |rows|
    ensures PassesAt(rows, i, at, Passes(rows[i..]))
    decreases |rows| - i
  {
    if i == |rows| {
      at := [];
      assert rows[i..] == [];
    } else {
      var more := PassPlaces(rows, i + 1);
      PassHolds(rows, i);
      var found := PassesFrom([], rows, i);
      assert [] + found == found && [] + Passes(rows[i..]) == Passes(rows[i..]);
      if Heads(rows, i) {
        OneMorePass(rows, i, more, Passes(rows[i + 1..]), found[0]);
        assert found == [found[0]];
        at := [i] + more;
      } else {
        NoMorePass(rows, i, more, Passes(rows[i + 1..]));
        assert found + Passes(rows[i + 1..]) == Passes(rows[i + 1..]);
        at := more;
      }
    }
  }

  /** The passes of a frame are those of the marker rows that hold a call, one for each, in row order. */
  lemma PassesTell(rows: seq<Node>) returns (at: seq<nat>)
    ensures |at| == |Passes(rows)| && (forall t, u | 0 <= t < u < |at| :: at[t] < at[u])
    ensures forall k: nat :: k in at <==> Heads(rows, k)
    ensures forall t | 0 <= t < |at| :: PassTells(Passes(rows)[t], rows, at[t])
  {
    at := PassPlaces(rows, 0);
    assert rows[0..] == rows;
  }

  // ------------------------------------------------------------------ marker paths

  /** For each row of the walk, the names of the markers around it, outermost first. */
  function Enclosing(actions: seq<Action>, outer: seq<string>, depth: nat): seq<seq<string>>
    decreases actions
  {
    if actions == [] || depth >= MAX_DEPTH then []
    else
      var a := actions[0];
      [outer]
      + (Enclosing(a.children, Within(a, outer), Below(a, depth))
         + Enclosing(actions[1..], outer, depth))
  }

  function PathOf(names: seq<string>): string {
    if names == [] then "" else Nested(PathOf(names[..|names| - 1]), names[|names| - 1])
  }

  function NonEmpty(names: seq<string>): seq<string> {
    if names == [] then []
    else NonEmpty(names[..|names| - 1]) + if names[|names| - 1] == "" then [] else [names[|names| - 1]]
  }

  /** No marker without a name sits inside one that has a name. */
  predicate Named(names: seq<string>) {
    forall i, j | 0 <= i < j < |names| && names[i] != "" :: names[j] != ""
  }

  /** A row and the names of the markers around it. */
  predicate Carries(row: Node, names: seq<string>) {
    row.path == PathOf(names) && row.depth == |names|
  }

  predicate AllCarry(rows: seq<Node>, names: seq<seq<string>>) {
    |names| == |rows| && forall k | 0 <= k < |rows| :: Carries(rows[k], names[k])
  }

  /** Every row carries the path and the depth of the markers around it. */
  lemma {:induction false} RowsCarryTheirMarkers(actions: seq<Action>, outer: seq<string>)
    ensures AllCarry(Flat(actions, PathOf(outer), |outer|), Enclosing(actions, outer, |outer|))
    decreases actions
  {
    if actions != [] && |outer| < MAX_DEPTH {
      var a, within := actions[0], Within(actions[0], outer);
      RowsCarryTheirMarkers(a.children, within);
      RowsCarryTheirMarkers(actions[1..], outer);
      WithinIs(a, outer);
      Unfolded(actions, outer);
      CarryAll(NodeOf(a, PathOf(outer), |outer|), Flat(a.children, PathOf(within), |within|),
               Flat(actions[1..], PathOf(outer), |outer|), outer, Enclosing(a.children, within, |within|),
               Enclosing(actions[1..], outer, |outer|));
    }
  }

  lemma Unfolded(actions: seq<Action>, outer: seq<string>)
    requires actions != [] && |outer| < MAX_DEPTH
    ensures var a, within := actions[0], Within(actions[0], outer);
            Flat(actions, PathOf(outer), |outer|)
            == [NodeOf(a, PathOf(outer), |outer|)]
               + (Flat(a.children, PathOf(within), |within|) + Flat(actions[1..], PathOf(outer), |outer|))
            && Enclosing(actions, outer, |outer|)
               == [outer] + (Enclosing(a.children, within, |within|) + Enclosing(actions[1..], outer, |outer|))
  {
    WithinIs(actions[0], outer);
  }

  /** The markers around what is inside `a`. */
  function Within(a: Action, outer: seq<string>): seq<string> {
    if a.push then outer + [a.name] else outer
  }

  lemma WithinIs(a: Action, outer: seq<string>)
    ensures PathOf(Within(a, outer)) == Inside(a, PathOf(outer)) && |Within(a, outer)| == Below(a, |outer|)
  {
    assert (outer + [a.name])[..|outer|] == outer;
  }

  lemma CarryAll(node: Node, rows: seq<Node>, moreRows: seq<Node>, outer: seq<string>, names: seq<seq<string>>,
                 moreNames: seq<seq<string>>)
    requires AllCarry(rows, names) && AllCarry(moreRows, moreNames) && Carries(node, outer)
    ensures AllCarry([node] + (rows + moreRows), [outer] + (names + moreNames))
  {
  }

  lemma {:induction false} JoinAppend(names: seq<string>, name: string)
    ensures Join(" > ", names + [name]) == if names == [] then name else Join(" > ", names) + " > " + name
  {
    if |names| > 1 {
      JoinAppend(names[1..], name);
      assert (names + [name])[1..] == names[1..] + [name];
    } else if |names| == 1 {
      assert (names + [name])[1..] == [name];
    }
  }

  lemma {:induction false} NoNames(names: seq<string>)
    ensures NonEmpty(names) == [] <==> forall i | 0 <= i < |names| :: names[i] == ""
    ensures "" !in NonEmpty(names)
  {
    if names != [] {
      NoNames(names[..|names| - 1]);
      assert names == names[..|names| - 1] + [names[|names| - 1]];
    }
  }

  lemma NamedAppend(names: seq<string>, name: string)
    ensures Named(names + [name]) <==>
            Named(names) && (name == "" ==> NonEmpty(names) == [])
  {
    NoNames(names);
    var all := names + [name];
    assert forall i | 0 <= i < |names| :: all[i] == names[i];
    assert all[|names|] == name;
  }

  lemma NestedLength(path: string, name: string, shorter: string)
    requires path != "" && shorter != "" && |path| >= |shorter|
    ensures |Nested(path, name)| > |shorter|
    ensures Nested(path, name) == shorter + " > " + name <==> path == shorter
    ensures |Nested(path, name)| >= |shorter + " > " + name|
  {
    if Nested(path, name) == shorter + " > " + name {
      assert path == Nested(path, name)[..|path|];
    }
  }

  /** A path is the join of the non-empty names around the row exactly when no nameless marker sits in a named one. */
  lemma {:induction false} PathJoinsNames(names: seq<string>)
    ensures PathOf(names) == Join(" > ", NonEmpty(names)) <==> Named(names)
    ensures |PathOf(names)| >= |Join(" > ", NonEmpty(names))|
    ensures PathOf(names) == "" <==> NonEmpty(names) == []
  {
    if names != [] {
      var init, last := names[..|names| - 1], names[|names| - 1];
      PathJoinsNames(init);
      assert names == init + [last];
      JoinAppend(NonEmpty(init), last);
      assert NonEmpty(init) + [] == NonEmpty(init);
      NamedAppend(init, last);
      if PathOf(init) != "" {
        NoNames(init);
        assert NonEmpty(init)[0] in NonEmpty(init);
        NestedLength(PathOf(init), last, Join(" > ", NonEmpty(init)));
      }
    }
  }

  /** An input: a marker without a name inside one that has one leaves a separator behind. */
  lemma NamelessMarkerShows()
    ensures PathOf(["A", ""]) == "A > " != Join(" > ", NonEmpty(["A", ""]))
  {
    var outer := ["A"];
    assert ["A", ""][..1] == outer && outer[..0] == [];
    assert PathOf(outer) == "A" && NonEmpty(outer) == [] + ["A"] == outer;
    assert NonEmpty(["A", ""]) == outer + [] == outer;
  }
}
