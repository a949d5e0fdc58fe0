/** `watch`: one shader variable at every event of a range, as the rows where it changed (src/cpp/commands_watch.cpp). */
module Watch {
  import opened Basics

  /** A reflected variable: a struct with members, or a value given as the texts of its components. */
  datatype Variable = Variable(name: string, members: seq<Variable>, columns: nat, components: seq<string>)

  datatype Watched = Watched(path: string, value: string)

  const MAX_VALUE_DEPTH := 16
  const MAX_BLOCKS := 64

  // ------------------------------------------------------------------ values

  function ComponentsText(v: Variable, n: nat): string
    requires n <= |v.components|
  {
    if n == 0 then ""
    else
      ComponentsText(v, n - 1)
      + (if n == 1 then "" else if v.columns > 0 && (n - 1) % v.columns == 0 then " | " else ", ")
      + v.components[n - 1]
  }

  function MembersText(members: seq<Variable>, depth: nat): string
    decreases members
  {
    if members == [] then ""
    else
      members[0].name + "=" + FormatValue(members[0], depth + 1)
      + (if |members| == 1 then "" else ", ") + MembersText(members[1..], depth)
  }

  function FormatValue(v: Variable, depth: nat): (text: string)
    ensures text != ""
    decreases v
  {
    if v.members != [] then
      if depth >= MAX_VALUE_DEPTH then "{...}" else "{ " + MembersText(v.members, depth) + " }"
    else
      var out := ComponentsText(v, if |v.components| < 16 then |v.components| else 16);
      if out == "" then "-" else out
  }

  // ------------------------------------------------------------------ names

  function Lower(c: char): char {
    if 'A' <= c <= 'Z' then ((c as int) - ('A' as int) + ('a' as int)) as char else c
  }

  predicate SameName(a: string, b: string) {
    |a| == |b| && forall i | 0 <= i < |a| :: Lower(a[i]) == Lower(b[i])
  }

  method WatchSameName(a: string, b: string) returns (same: bool)
    ensures same <==> SameName(a, b)
  {
    if |a| != |b| {
      return false;
    }
    for i := 0 to |a|
      invariant forall k | 0 <= k < i :: Lower(a[k]) == Lower(b[k])
    {
      if Lower(a[i]) != Lower(b[i]) {
        return false;
      }
    }
    return true;
  }

  lemma DropMore(path: string, part: string)
    requires '.' in path && |part| <= |path| - 1 && part == path[1..][|path| - 1 - |part|..]
    requires |part| < |path| - 1 ==> path[1..][|path| - 1 - |part| - 1] == '.'
    requires '.' !in part
    ensures part == path[|path| - |part|..] && path[|path| - |part| - 1] == '.'
  {
    assert path == [path[0]] + path[1..];
  }

  /** What follows the last dot, or everything. */
  function LastPart(path: string): (part: string)
    ensures '.' !in part && |part| <= |path| && part == path[|path| - |part|..]
    ensures |part| < |path| ==> path[|path| - |part| - 1] == '.'
  {
    if '.' !in path then path
    else
      var part := LastPart(path[1..]);
      DropMore(path, part);
      part
  }

  predicate NameMatches(path: string, want: string) {
    SameName(path, want) || ('.' !in want && SameName(LastPart(path), want))
  }

  method WatchNameMatches(path: string, want: string) returns (matches: bool)
    ensures matches <==> NameMatches(path, want)
  {
    matches := WatchSameName(path, want);
    if matches || '.' in want {
      return;
    }
    matches := WatchSameName(LastPart(path), want);
  }

  // ------------------------------------------------------------------ the variables asked for

  function Under(prefix: string, name: string): string {
    if prefix == "" then name else prefix + "." + name
  }

  function LeavesOf(vars: seq<Variable>, prefix: string, depth: nat): seq<Watched>
    decreases vars
  {
    if vars == [] then []
    else
      var v, path := vars[0], prefix + "." + vars[0].name;
      (if v.members == [] || depth >= MAX_VALUE_DEPTH then [Watched(path, FormatValue(v, 0))]
       else LeavesOf(v.members, path, depth + 1))
      + LeavesOf(vars[1..], prefix, depth)
  }

  function WatchedOf(vars: seq<Variable>, prefix: string, want: string): seq<Watched>
    decreases vars
  {
    if vars == [] then [] else WatchedIn(vars[0], prefix, want) + WatchedOf(vars[1..], prefix, want)
  }

  function WatchedIn(v: Variable, prefix: string, want: string): seq<Watched>
    decreases v
  {
    var path := Under(prefix, v.name);
    if NameMatches(path, want) then
      if v.members == [] then [Watched(path, FormatValue(v, 0))] else LeavesOf(v.members, path, 0)
    else WatchedOf(v.members, path, want)
  }

  lemma LeavesFrom(out: seq<Watched>, vars: seq<Variable>, i: nat, prefix: string, depth: nat)
    requires i < |vars|
    ensures var v, path := vars[i], prefix + "." + vars[i].name;
            out + LeavesOf(vars[i..], prefix, depth)
            == (out + (if v.members == [] || depth >= MAX_VALUE_DEPTH then [Watched(path, FormatValue(v, 0))]
                       else LeavesOf(v.members, path, depth + 1)))
               + LeavesOf(vars[i + 1..], prefix, depth)
  {
    var v, path := vars[i], prefix + "." + vars[i].name;
    assert vars[i..][0] == vars[i] && vars[i..][1..] == vars[i + 1..];
    Assoc(out, if v.members == [] || depth >= MAX_VALUE_DEPTH then [Watched(path, FormatValue(v, 0))]
                 else LeavesOf(v.members, path, depth + 1), LeavesOf(vars[i + 1..], prefix, depth));
  }

  method CollectLeaves(vars: seq<Variable>, prefix: string, found: seq<Watched>, depth: nat) returns (out: seq<Watched>)
    ensures out == found + LeavesOf(vars, prefix, depth)
    decreases vars
  {
    out := found;
    for i := 0 to |vars|
      invariant out + LeavesOf(vars[i..], prefix, depth) == found + LeavesOf(vars, prefix, depth)
    {
      var v := vars[i];
      var path := prefix + "." + v.name;
      LeavesFrom(out, vars, i, prefix, depth);
      if v.members == [] || depth >= MAX_VALUE_DEPTH {
        out := out + [Watched(path, FormatValue(v, 0))];
      } else {
        out := CollectLeaves(v.members, path, out, depth + 1);
      }
    }
    assert vars[|vars|..] == [] && vars[0..] == vars;
  }

  method CollectWatched(vars: seq<Variable>, prefix: string, want: string, found: seq<Watched>) returns (out: seq<Watched>)
    ensures out == found + WatchedOf(vars, prefix, want)
    decreases vars
  {
    out := found;
    for i := 0 to |vars|
      invariant out + WatchedOf(vars[i..], prefix, want) == found + WatchedOf(vars, prefix, want)
    {
      assert vars[i..][0] == vars[i] && vars[i..][1..] == vars[i + 1..];
      Assoc(out, WatchedIn(vars[i], prefix, want), WatchedOf(vars[i + 1..], prefix, want));
      out := CollectOne(vars[i], prefix, want, out);
    }
    assert vars[|vars|..] == [] && vars[0..] == vars;
  }

  method CollectOne(v: Variable, prefix: string, want: string, found: seq<Watched>) returns (out: seq<Watched>)
    ensures out == found + WatchedIn(v, prefix, want)
    decreases v
  {
    out := found;
    var path := Under(prefix, v.name);
    var matches := WatchNameMatches(path, want);
    if matches {
      if v.members == [] {
        out := out + [Watched(path, FormatValue(v, 0))];
      } else {
        out := CollectLeaves(v.members, path, out, 0);
      }
    } else if v.members != [] {
      out := CollectWatched(v.members, path, want, out);
    }
  }

  // ------------------------------------------------------------------ what the walk finds

  /** A variable of the tree at any depth: whether it is a leaf, and how many structs below the outermost variable
      that answers to the name it lies, none when there is no such variable around it. */
  datatype Node = Node(value: Watched, leaf: bool, below: Option<nat>)

  /** Every variable of the tree, a struct before its members. */
  function AllNodes(vars: seq<Variable>, prefix: string, want: string, above: Option<nat>): seq<Node>
    decreases vars
  {
    if vars == [] then [] else NodesIn(vars[0], prefix, want, above) + AllNodes(vars[1..], prefix, want, above)
  }

  function NodesIn(v: Variable, prefix: string, want: string, above: Option<nat>): seq<Node>
    decreases v
  {
    var path := Under(prefix, v.name);
    var below := if above.Some? then Some(above.value + 1) else if NameMatches(path, want) then Some(0) else None;
    [Node(Watched(path, FormatValue(v, 0)), v.members == [], below)] + AllNodes(v.members, path, want, below)
  }

  /** The deepest a variable is listed by itself below the one that answers. */
  const DEEPEST := MAX_VALUE_DEPTH + 1

  predicate Listed(node: Node) {
    node.below.Some? && if node.leaf then node.below.value <= DEEPEST else node.below.value == DEEPEST
  }

  function ListedOf(nodes: seq<Node>): seq<Watched> {
    if nodes == [] then [] else (if Listed(nodes[0]) then [nodes[0].value] else []) + ListedOf(nodes[1..])
  }

  lemma {:induction false} ListedConcat(xs: seq<Node>, ys: seq<Node>)
    ensures ListedOf(xs + ys) == ListedOf(xs) + ListedOf(ys)
  {
    if xs == [] {
      assert xs + ys == ys;
    } else {
      ListedConcat(xs[1..], ys);
      assert (xs + ys)[1..] == xs[1..] + ys;
      Assoc(if Listed(xs[0]) then [xs[0].value] else [], ListedOf(xs[1..]), ListedOf(ys));
    }
  }

  lemma ListedFirst(node: Node, rest: seq<Node>)
    ensures ListedOf([node] + rest) == (if Listed(node) then [node.value] else []) + ListedOf(rest)
  {
    assert ([node] + rest)[1..] == rest;
  }

  lemma {:induction false} NothingDeeper(vars: seq<Variable>, prefix: string, want: string, above: nat)
    requires above >= DEEPEST
    ensures ListedOf(AllNodes(vars, prefix, want, Some(above))) == []
    decreases vars
  {
    if vars != [] {
      NothingIn(vars[0], prefix, want, above);
      NothingDeeper(vars[1..], prefix, want, above);
      ListedConcat(NodesIn(vars[0], prefix, want, Some(above)), AllNodes(vars[1..], prefix, want, Some(above)));
    }
  }

  lemma {:induction false} NothingIn(v: Variable, prefix: string, want: string, above: nat)
    requires above >= DEEPEST
    ensures ListedOf(NodesIn(v, prefix, want, Some(above))) == []
    decreases v
  {
    var path := Under(prefix, v.name);
    var own, below := Node(Watched(path, FormatValue(v, 0)), v.members == [], Some(above + 1)),
                      AllNodes(v.members, path, want, Some(above + 1));
    NothingDeeper(v.members, path, want, above + 1);
    NothingFirst(own, below);
    NodesBelow(v, prefix, want, above, own, below);
  }

  lemma NodesBelow(v: Variable, prefix: string, want: string, above: nat, own: Node, below: seq<Node>)
    requires own == Node(Watched(Under(prefix, v.name), FormatValue(v, 0)), v.members == [], Some(above + 1))
    requires below == AllNodes(v.members, Under(prefix, v.name), want, Some(above + 1))
    ensures NodesIn(v, prefix, want, Some(above)) == [own] + below
  {
  }

  lemma NothingFirst(own: Node, below: seq<Node>)
    requires !Listed(own) && ListedOf(below) == []
    ensures ListedOf([own] + below) == []
  {
    ListedFirst(own, below);
  }

  lemma {:induction false} LeavesAreListed(vars: seq<Variable>, prefix: string, want: string, depth: nat)
    requires prefix != "" && depth <= MAX_VALUE_DEPTH
    ensures LeavesOf(vars, prefix, depth) == ListedOf(AllNodes(vars, prefix, want, Some(depth)))
    decreases vars
  {
    if vars != [] {
      var v := vars[0];
      MemberIsListed(v, prefix, want, depth);
      LeavesAreListed(vars[1..], prefix, want, depth);
      ListedConcat(NodesIn(v, prefix, want, Some(depth)), AllNodes(vars[1..], prefix, want, Some(depth)));
    }
  }

  /** What is listed of one member of a struct that answers, or of one below it. */
  lemma {:induction false} MemberIsListed(v: Variable, prefix: string, want: string, depth: nat)
    requires prefix != "" && depth <= MAX_VALUE_DEPTH
    ensures var path := prefix + "." + v.name;
            ListedOf(NodesIn(v, prefix, want, Some(depth)))
            == if v.members == [] || depth >= MAX_VALUE_DEPTH then [Watched(path, FormatValue(v, 0))]
               else LeavesOf(v.members, path, depth + 1)
    decreases v
  {
    var path := Under(prefix, v.name);
    var below := AllNodes(v.members, path, want, Some(depth + 1));
    ListedFirst(Node(Watched(path, FormatValue(v, 0)), v.members == [], Some(depth + 1)), below);
    if v.members != [] {
      if depth == MAX_VALUE_DEPTH {
        NothingDeeper(v.members, path, want, depth + 1);
      } else {
        LeavesAreListed(v.members, path, want, depth + 1);
      }
    }
  }

  /** The walk finds exactly the leaves that answer to the name or lie at most 17 deep in a struct that does, and the
      structs 17 deep in such a one, each once and in order; so a leaf is lost only when it lies deeper. */
  lemma {:induction false} WatchedAreListed(vars: seq<Variable>, prefix: string, want: string)
    requires want != ""
    ensures WatchedOf(vars, prefix, want) == ListedOf(AllNodes(vars, prefix, want, None))
    decreases vars
  {
    if vars != [] {
      OneIsListed(vars[0], prefix, want);
      WatchedAreListed(vars[1..], prefix, want);
      ListedConcat(NodesIn(vars[0], prefix, want, None), AllNodes(vars[1..], prefix, want, None));
    }
  }

  lemma {:induction false} OneIsListed(v: Variable, prefix: string, want: string)
    requires want != ""
    ensures WatchedIn(v, prefix, want) == ListedOf(NodesIn(v, prefix, want, None))
    decreases v
  {
    var path := Under(prefix, v.name);
    var below := if NameMatches(path, want) then Some(0) else None;
    ListedFirst(Node(Watched(path, FormatValue(v, 0)), v.members == [], below), AllNodes(v.members, path, want, below));
    if NameMatches(path, want) {
      LeavesAreListed(v.members, path, want, 0);
    } else {
      WatchedAreListed(v.members, path, want);
    }
  }

  // ------------------------------------------------------------------ readings and rows

  datatype Key = Key(stage: nat, block: nat, path: string)

  datatype Reading = Reading(eid: int, key: Key, value: string)

  /** The last value read for `key`; empty when there is none. */
  function Latest(log: seq<Reading>, key: Key): string {
    if log == [] then ""
    else if log[|log| - 1].key == key then log[|log| - 1].value
    else Latest(log[..|log| - 1], key)
  }

  /** The rows printed for the readings so far. */
  function RowsOf(log: seq<Reading>, all: bool): seq<Reading> {
    if log == [] then []
    else
      var init, last := log[..|log| - 1], log[|log| - 1];
      RowsOf(init, all) + if all || Latest(init, last.key) != last.value then [last] else []
  }

  /** One event's readings: stages in order, blocks in order, matches in order. */
  function BlockLog(eid: int, stage: nat, block: nat, found: seq<Watched>): seq<Reading> {
    seq(|found|, i requires 0 <= i < |found| => Reading(eid, Key(stage, block, found[i].path), found[i].value))
  }

  function BlocksLog(eid: int, stage: nat, blocks: seq<seq<Variable>>, n: nat, want: string): seq<Reading>
    requires n <= |blocks|
  {
    if n == 0 then []
    else BlocksLog(eid, stage, blocks, n - 1, want) + BlockLog(eid, stage, n - 1, WatchedOf(blocks[n - 1], "", want))
  }

  /** The engine's answers: whether an event has state, and the blocks of the shader bound at a stage of it. */
  datatype Engine = Engine(hasState: int -> bool, blocks: (int, nat) -> Option<seq<seq<Variable>>>, stages: nat)

  function StageLog(engine: Engine, eid: int, stage: nat, only: int, want: string): seq<Reading> {
    if only >= 0 && stage != only then []
    else
      match engine.blocks(eid, stage)
      case None => []
      case Some(blocks) => BlocksLog(eid, stage, blocks, Least(MAX_BLOCKS, |blocks|), want)
  }

  function EventLog(engine: Engine, eid: int, n: nat, only: int, want: string): seq<Reading> {
    if n == 0 then [] else EventLog(engine, eid, n - 1, only, want) + StageLog(engine, eid, n - 1, only, want)
  }

  /** Every reading from `since` up to, not including, `till`. */
  function RunLog(engine: Engine, since: int, till: int, only: int, want: string): seq<Reading>
    decreases till - since
  {
    if till <= since then []
    else
      RunLog(engine, since, till - 1, only, want)
      + if engine.hasState(till - 1) then EventLog(engine, till - 1, engine.stages, only, want) else []
  }

  /** Whether a stage is looked at and has a reflected shader. */
  predicate IsBound(engine: Engine, eid: int, stage: nat, only: int) {
    !(only >= 0 && stage != only) && engine.blocks(eid, stage).Some?
  }

  /** How many blocks are read: of every bound stage the first 64. */
  function BlocksRead(engine: Engine, eid: int, n: nat, only: int): nat {
    if n == 0 then 0
    else
      BlocksRead(engine, eid, n - 1, only)
      + if IsBound(engine, eid, n - 1, only) then Least(MAX_BLOCKS, |engine.blocks(eid, n - 1).value|) else 0
  }

  /** Some stage below `n` is. */
  predicate AnyBound(engine: Engine, eid: int, n: nat, only: int) {
    n > 0 && (AnyBound(engine, eid, n - 1, only) || IsBound(engine, eid, n - 1, only))
  }

  /** What one event adds to the number of events with something bound, and to that of the blocks read. */
  function EventCounts(engine: Engine, eid: int, only: int): (nat, nat) {
    if !engine.hasState(eid) then (0, 0)
    else (if AnyBound(engine, eid, engine.stages, only) then 1 else 0, BlocksRead(engine, eid, engine.stages, only))
  }

  /** The events from `since` up to, not including, `till` that have something bound. */
  function WithState(engine: Engine, since: int, till: int, only: int): nat
    decreases till - since
  {
    if till <= since then 0 else WithState(engine, since, till - 1, only) + EventCounts(engine, till - 1, only).0
  }

  function AllBlocksRead(engine: Engine, since: int, till: int, only: int): nat
    decreases till - since
  {
    if till <= since then 0 else AllBlocksRead(engine, since, till - 1, only) + EventCounts(engine, till - 1, only).1
  }

  // ------------------------------------------------------------------ the command

  /** The last value of every key that was read. */
  function SeenOf(log: seq<Reading>): map<Key, string> {
    if log == [] then map[] else SeenOf(log[..|log| - 1])[log[|log| - 1].key := log[|log| - 1].value]
  }

  lemma {:induction false} SeenIsLatest(log: seq<Reading>, key: Key)
    ensures Latest(log, key) == if key in SeenOf(log) then SeenOf(log)[key] else ""
  {
    if log != [] {
      SeenIsLatest(log[..|log| - 1], key);
    }
  }

  /** What a run keeps, and what it keeps after the given readings. */
  datatype Tally = Tally(seen: map<Key, string>, rows: seq<Reading>, matched: nat, changes: nat)

  function TallyOf(log: seq<Reading>, all: bool): Tally {
    Tally(SeenOf(log), RowsOf(log, all), |log|, |RowsOf(log, false)|)
  }

  lemma LogNext(log: seq<Reading>, r: Reading, all: bool)
    ensures RowsOf(log + [r], all) == if all || Latest(log, r.key) != r.value then RowsOf(log, all) + [r] else RowsOf(log, all)
    ensures SeenOf(log + [r]) == SeenOf(log)[r.key := r.value]
  {
    assert (log + [r])[..|log|] == log;
  }

  /** What one more reading does to the tally. */
  lemma TallyNext(log: seq<Reading>, r: Reading, all: bool)
    ensures var t := TallyOf(log, all);
            var changed := (if r.key in t.seen then t.seen[r.key] else "") != r.value;
            TallyOf(log + [r], all)
            == Tally(t.seen[r.key := r.value], if all || changed then t.rows + [r] else t.rows, t.matched + 1,
                     if changed then t.changes + 1 else t.changes)
  {
    LogNext(log, r, all);
    LogNext(log, r, false);
    SeenIsLatest(log, r.key);
  }

  lemma UpdateTwice<K, V>(m: map<K, V>, key: K, x: V, y: V)
    ensures m[key := x][key := y] == m[key := y]
  {
  }

  lemma BlocksLogNext(was: seq<Reading>, eid: int, stage: nat, blocks: seq<seq<Variable>>, b: nat, want: string)
    requires b < |blocks|
    ensures was + BlocksLog(eid, stage, blocks, b + 1, want)
            == (was + BlocksLog(eid, stage, blocks, b, want)) + BlockLog(eid, stage, b, WatchedOf(blocks[b], "", want))
  {
    Assoc(was, BlocksLog(eid, stage, blocks, b, want), BlockLog(eid, stage, b, WatchedOf(blocks[b], "", want)));
  }

  lemma AppendNext<T>(a: seq<T>, b: seq<T>, i: nat)
    requires i < |b|
    ensures (a + b[..i]) + [b[i]] == a + b[..i + 1]
  {
  }

  class Watcher {
    ghost var log: seq<Reading>
    var seen: map<Key, string>
    var rows: seq<Reading>
    var matched: nat
    var changes: nat
    var blocksRead: nat
    const all: bool

    constructor (all: bool)
      ensures Valid() && log == [] && this.all == all && blocksRead == 0
    {
      log, seen, rows, matched, changes, blocksRead := [], map[], [], 0, 0, 0;
      this.all := all;
    }

    ghost predicate Valid()
      reads this
    {
      Tally(seen, rows, matched, changes) == TallyOf(log, all)
    }

    method Take(eid: int, key: Key, value: string)
      requires Valid()
      modifies this
      ensures Valid() && log == old(log) + [Reading(eid, key, value)] && blocksRead == old(blocksRead)
    {
      TallyNext(log, Reading(eid, key, value), all);
      UpdateTwice(seen, key, "", value);
      matched := matched + 1;
      // Looking the key up is what puts it in, with an empty value.
      if key !in seen {
        seen := seen[key := ""];
      }
      var was := seen[key];
      var changed := key !in seen || was != value;
      seen := seen[key := value];
      log := log + [Reading(eid, key, value)];
      if !changed && !all {
        return;
      }
      changes := changes + if changed then 1 else 0;
      rows := rows + [Reading(eid, key, value)];
    }

    method TakeBlock(eid: int, stage: nat, block: nat, vars: seq<Variable>, want: string)
      requires Valid()
      modifies this
      ensures Valid() && log == old(log) + BlockLog(eid, stage, block, WatchedOf(vars, "", want))
      ensures blocksRead == old(blocksRead) + 1
    {
      blocksRead := blocksRead + 1;
      var found := CollectWatched(vars, "", want, []);
      assert found == WatchedOf(vars, "", want);
      TakeFound(eid, stage, block, found);
    }

    method TakeFound(eid: int, stage: nat, block: nat, found: seq<Watched>)
      requires Valid()
      modifies this
      ensures Valid() && log == old(log) + BlockLog(eid, stage, block, found) && blocksRead == old(blocksRead)
    {
      ghost var was, readings, before := log, BlockLog(eid, stage, block, found), blocksRead;
      for i := 0 to |found|
        invariant Valid() && log == was + readings[..i] && blocksRead == before
      {
        AppendNext(was, readings, i);
        Take(eid, Key(stage, block, found[i].path), found[i].value);
      }
      assert readings[..|found|] == readings;
    }

    method TakeStage(engine: Engine, eid: int, stage: nat, only: int, want: string) returns (any: bool)
      requires Valid()
      modifies this
      ensures Valid() && log == old(log) + StageLog(engine, eid, stage, only, want)
      ensures any <==> IsBound(engine, eid, stage, only)
      ensures blocksRead == old(blocksRead) + if any then Least(MAX_BLOCKS, |engine.blocks(eid, stage).value|) else 0
    {
      if only >= 0 && stage != only {
        return false;
      }
      var bound := engine.blocks(eid, stage);
      if bound.None? {
        return false;
      }
      TakeBlocks(eid, stage, bound.value, want);
      return true;
    }

    method TakeBlocks(eid: int, stage: nat, blocks: seq<seq<Variable>>, want: string)
      requires Valid()
      modifies this
      ensures Valid() && log == old(log) + BlocksLog(eid, stage, blocks, Least(MAX_BLOCKS, |blocks|), want)
      ensures blocksRead == old(blocksRead) + Least(MAX_BLOCKS, |blocks|)
    {
      var n := Least(MAX_BLOCKS, |blocks|);
      ghost var was, before := log, blocksRead;
      for b: nat := 0 to n
        invariant Valid() && blocksRead == before + b
        invariant log == was + BlocksLog(eid, stage, blocks, b, want)
      {
        TakeNextBlock(eid, stage, blocks, b, want, was);
      }
    }

    method TakeNextBlock(eid: int, stage: nat, blocks: seq<seq<Variable>>, b: nat, want: string, ghost was: seq<Reading>)
      requires Valid() && b < |blocks| && log == was + BlocksLog(eid, stage, blocks, b, want)
      modifies this
      ensures Valid() && log == was + BlocksLog(eid, stage, blocks, b + 1, want)
      ensures blocksRead == old(blocksRead) + 1
    {
      BlocksLogNext(was, eid, stage, blocks, b, want);
      TakeBlock(eid, stage, b, blocks[b], want);
    }

    method TakeStages(engine: Engine, eid: int, only: int, want: string) returns (any: bool)
      requires Valid()
      modifies this
      ensures Valid() && log == old(log) + EventLog(engine, eid, engine.stages, only, want)
      ensures any <==> AnyBound(engine, eid, engine.stages, only)
      ensures blocksRead == old(blocksRead) + BlocksRead(engine, eid, engine.stages, only)
    {
      any := false;
      ghost var was, before := log, blocksRead;
      for s: nat := 0 to engine.stages
        invariant Valid() && log == was + EventLog(engine, eid, s, only, want)
        invariant any <==> AnyBound(engine, eid, s, only)
        invariant blocksRead == before + BlocksRead(engine, eid, s, only)
      {
        var bound := TakeNextStage(engine, eid, s, only, want, was, before);
        any := any || bound;
      }
    }

    method TakeNextStage(engine: Engine, eid: int, s: nat, only: int, want: string, ghost was: seq<Reading>, ghost before: nat)
      returns (bound: bool)
      requires Valid() && log == was + EventLog(engine, eid, s, only, want)
      requires blocksRead == before + BlocksRead(engine, eid, s, only)
      modifies this
      ensures Valid() && log == was + EventLog(engine, eid, s + 1, only, want)
      ensures blocksRead == before + BlocksRead(engine, eid, s + 1, only)
      ensures bound <==> IsBound(engine, eid, s, only)
    {
      Assoc(was, EventLog(engine, eid, s, only, want), StageLog(engine, eid, s, only, want));
      bound := TakeStage(engine, eid, s, only, want);
    }

    /** One event of a run that began at `since`. */
    method TakeEvent(engine: Engine, eid: int, only: int, want: string, ghost since: int) returns (any: bool)
      requires Valid() && since <= eid && log == RunLog(engine, since, eid, only, want)
      requires blocksRead == AllBlocksRead(engine, since, eid, only)
      modifies this
      ensures Valid() && log == RunLog(engine, since, eid + 1, only, want)
      ensures blocksRead == AllBlocksRead(engine, since, eid + 1, only)
      ensures (if any then 1 else 0) == EventCounts(engine, eid, only).0
    {
      any := false;
      if engine.hasState(eid) {
        any := TakeStages(engine, eid, only, want);
      }
    }
  }

  /** The events a run looks at: `--max-events` cuts it. */
  function EndOf(since: int, until: int, maxEvents: int): int {
    if maxEvents > 0 && since + maxEvents <= until then since + maxEvents
    else if since <= until then until + 1
    else since
  }

  method CmdWatch(engine: Engine, lastEvent: int, since: int, optUntil: int, maxEvents: int, all: bool, only: int,
                  want: string)
    returns (ok: bool, rows: seq<Reading>, scanned: nat, withState: nat, blocksRead: nat, matched: nat, changes: nat,
             truncated: bool)
    ensures ok <==> optUntil > 0 || lastEvent > 0
    ensures ok ==>
              var until := if optUntil > 0 then optUntil else lastEvent;
              var log := RunLog(engine, since, EndOf(since, until, maxEvents), only, want);
              rows == RowsOf(log, all) && matched == |log| && changes == |RowsOf(log, false)|
              && scanned == EndOf(since, until, maxEvents) - since
              && withState == WithState(engine, since, EndOf(since, until, maxEvents), only)
              && blocksRead == AllBlocksRead(engine, since, EndOf(since, until, maxEvents), only)
              && (truncated <==> maxEvents > 0 && since + maxEvents <= until)
  {
    var until := if optUntil > 0 then optUntil else lastEvent;
    if until <= 0 {
      return false, [], 0, 0, 0, 0, 0, false;
    }
    var watcher := new Watcher(all);
    scanned, withState, truncated := 0, 0, false;
    var eid := since;
    while eid <= until
      invariant eid == since + scanned && !truncated && (since > until ==> scanned == 0)
      invariant since <= until ==> eid <= EndOf(since, until, maxEvents)
      invariant maxEvents > 0 ==> scanned <= maxEvents
      invariant fresh(watcher) && watcher.Valid() && watcher.all == all
      invariant watcher.log == RunLog(engine, since, eid, only, want)
      invariant withState == WithState(engine, since, eid, only)
      invariant watcher.blocksRead == AllBlocksRead(engine, since, eid, only)
    {
      if maxEvents > 0 && scanned >= maxEvents {
        truncated := true;
        break;
      }
      scanned := scanned + 1;
      var any := watcher.TakeEvent(engine, eid, only, want, since);
      withState := withState + if any then 1 else 0;
      eid := eid + 1;
    }
    return true, watcher.rows, scanned, withState, watcher.blocksRead, watcher.matched, watcher.changes, truncated;
  }

  // ------------------------------------------------------------------ what the rows keep

  /** Reading the rows back gives, for every key, the value that was read last: the rows lose nothing. */
  lemma {:induction false} RowsKeepLatest(log: seq<Reading>, all: bool, key: Key)
    ensures Latest(RowsOf(log, all), key) == Latest(log, key)
  {
    if log != [] {
      var init, last := log[..|log| - 1], log[|log| - 1];
      RowsKeepLatest(init, all, key);
      var rows := RowsOf(init, all);
      assert (rows + [last])[..|rows|] == rows;
      assert rows + [] == rows;
    }
  }

  predicate Ascending(log: seq<Reading>) {
    forall i, j | 0 <= i < j < |log| :: log[i].eid <= log[j].eid
  }

  function UpTo(log: seq<Reading>, eid: int): seq<Reading> {
    if log == [] then []
    else UpTo(log[..|log| - 1], eid) + if log[|log| - 1].eid <= eid then [log[|log| - 1]] else []
  }

  lemma {:induction false} UpToAll(log: seq<Reading>, eid: int)
    requires forall r | r in log :: r.eid <= eid
    ensures UpTo(log, eid) == log
  {
    if log != [] {
      assert log == log[..|log| - 1] + [log[|log| - 1]];
      UpToAll(log[..|log| - 1], eid);
    }
  }

  lemma UpToNext(log: seq<Reading>, r: Reading, eid: int)
    requires r.eid > eid
    ensures UpTo(log + [r], eid) == UpTo(log, eid)
  {
    assert (log + [r])[..|log|] == log;
  }

  lemma {:induction false} RowsAreReadings(log: seq<Reading>, all: bool)
    ensures forall r | r in RowsOf(log, all) :: r in log
  {
    if log != [] {
      RowsAreReadings(log[..|log| - 1], all);
    }
  }

  /** The rows up to an event are the rows of the readings up to it. */
  lemma {:induction false} RowsUpTo(log: seq<Reading>, all: bool, eid: int)
    requires Ascending(log)
    ensures UpTo(RowsOf(log, all), eid) == RowsOf(UpTo(log, eid), all)
  {
    if log != [] {
      var init, last := log[..|log| - 1], log[|log| - 1];
      RowsUpTo(init, all, eid);
      if last.eid <= eid {
        AllUpTo(log, all, eid);
      } else {
        assert log == init + [last];
        NextUpTo(init, last, all, eid);
      }
    }
  }

  lemma AllUpTo(log: seq<Reading>, all: bool, eid: int)
    requires forall r | r in log :: r.eid <= eid
    ensures UpTo(RowsOf(log, all), eid) == RowsOf(UpTo(log, eid), all)
  {
    UpToAll(log, eid);
    RowsAreReadings(log, all);
    UpToAll(RowsOf(log, all), eid);
  }

  lemma NextUpTo(log: seq<Reading>, r: Reading, all: bool, eid: int)
    requires r.eid > eid && UpTo(RowsOf(log, all), eid) == RowsOf(UpTo(log, eid), all)
    ensures UpTo(RowsOf(log + [r], all), eid) == RowsOf(UpTo(log + [r], eid), all)
  {
    LogNext(log, r, all);
    UpToNext(log, r, eid);
    UpToNext(RowsOf(log, all), r, eid);
  }

  /** At every event, the last row of a key at or before it carries the key's latest reading at or before it. */
  lemma RowsLoseNothing(log: seq<Reading>, all: bool, eid: int, key: Key)
    requires Ascending(log)
    ensures Latest(UpTo(RowsOf(log, all), eid), key) == Latest(UpTo(log, eid), key)
  {
    RowsUpTo(log, all, eid);
    RowsKeepLatest(UpTo(log, eid), all, key);
  }

  predicate InEvent(log: seq<Reading>, eid: int) {
    forall k | 0 <= k < |log| :: log[k].eid == eid && log[k].value != ""
  }

  lemma {:induction false} EventLogStays(engine: Engine, eid: int, n: nat, only: int, want: string)
    ensures InEvent(EventLog(engine, eid, n, only, want), eid)
  {
    if n > 0 {
      EventLogStays(engine, eid, n - 1, only, want);
      StageLogStays(engine, eid, n - 1, only, want);
      LogsStay(engine, eid, n, only, want);
    }
  }

  lemma LogsStay(engine: Engine, eid: int, n: nat, only: int, want: string)
    requires n > 0
    requires InEvent(EventLog(engine, eid, n - 1, only, want), eid) && InEvent(StageLog(engine, eid, n - 1, only, want), eid)
    ensures InEvent(EventLog(engine, eid, n, only, want), eid)
  {
    InEventConcat(EventLog(engine, eid, n - 1, only, want), StageLog(engine, eid, n - 1, only, want), eid);
  }

  lemma InEventConcat(xs: seq<Reading>, ys: seq<Reading>, eid: int)
    requires InEvent(xs, eid) && InEvent(ys, eid)
    ensures InEvent(xs + ys, eid)
  {
  }

  lemma StageLogStays(engine: Engine, eid: int, stage: nat, only: int, want: string)
    ensures InEvent(StageLog(engine, eid, stage, only, want), eid)
  {
    match engine.blocks(eid, stage)
    case None =>
    case Some(blocks) => BlocksLogStays(eid, stage, blocks, Least(MAX_BLOCKS, |blocks|), want);
  }

  lemma {:induction false} BlocksLogStays(eid: int, stage: nat, blocks: seq<seq<Variable>>, n: nat, want: string)
    requires n <= |blocks|
    ensures InEvent(BlocksLog(eid, stage, blocks, n, want), eid)
  {
    if n > 0 {
      BlocksLogStays(eid, stage, blocks, n - 1, want);
      WatchedSpeak(blocks[n - 1], "", want);
    }
  }

  lemma {:induction false} LeavesSpeak(vars: seq<Variable>, prefix: string, depth: nat)
    ensures forall w | w in LeavesOf(vars, prefix, depth) :: w.value != ""
    decreases vars
  {
    if vars != [] {
      LeavesSpeak(vars[0].members, prefix + "." + vars[0].name, depth + 1);
      LeavesSpeak(vars[1..], prefix, depth);
    }
  }

  lemma {:induction false} WatchedSpeak(vars: seq<Variable>, prefix: string, want: string)
    ensures forall w | w in WatchedOf(vars, prefix, want) :: w.value != ""
    decreases vars
  {
    if vars != [] {
      LeavesSpeak(vars[0].members, Under(prefix, vars[0].name), 0);
      WatchedSpeak(vars[0].members, Under(prefix, vars[0].name), want);
      WatchedSpeak(vars[1..], prefix, want);
    }
  }

  /** A run reads its events in order, so the promise above holds of every run. */
  lemma {:induction false} RunAscends(engine: Engine, since: int, till: int, only: int, want: string)
    ensures Ascending(RunLog(engine, since, till, only, want))
    ensures forall r | r in RunLog(engine, since, till, only, want) :: since <= r.eid < till && r.value != ""
    decreases till - since
  {
    if since < till {
      RunAscends(engine, since, till - 1, only, want);
      EventLogStays(engine, till - 1, engine.stages, only, want);
    }
  }

  /** What a run prints, at every event and for every key: with or without `--all`, the latest reading is in its last row. */
  lemma RunLosesNothing(engine: Engine, since: int, till: int, only: int, want: string, all: bool, eid: int, key: Key)
    ensures var log := RunLog(engine, since, till, only, want);
            Latest(UpTo(RowsOf(log, all), eid), key) == Latest(UpTo(log, eid), key)
            && ((exists r :: r in UpTo(log, eid) && r.key == key) <==> Latest(UpTo(RowsOf(log, all), eid), key) != "")
  {
    var log := RunLog(engine, since, till, only, want);
    RunAscends(engine, since, till, only, want);
    RowsLoseNothing(log, all, eid, key);
    UpToWithin(log, eid);
    LatestIsRead(UpTo(log, eid), key);
  }

  lemma {:induction false} UpToWithin(log: seq<Reading>, eid: int)
    ensures forall r | r in UpTo(log, eid) :: r in log
  {
    if log != [] {
      UpToWithin(log[..|log| - 1], eid);
    }
  }

  lemma {:induction false} LatestIsRead(log: seq<Reading>, key: Key)
    requires Spoken(log)
    ensures (exists r :: r in log && r.key == key) <==> Latest(log, key) != ""
  {
    if log != [] {
      var init, last := log[..|log| - 1], log[|log| - 1];
      LatestIsRead(init, key);
      assert log == init + [last];
      assert last in log;
    }
  }

  predicate Spoken(log: seq<Reading>) {
    forall r | r in log :: r.value != ""
  }

  /** Nothing is printed twice over: two rows of one key, with no row of it between, differ. */
  lemma {:induction false} RowsChange(log: seq<Reading>, k: nat)
    requires k < |RowsOf(log, false)|
    ensures RowsOf(log, false)[k].value != Latest(RowsOf(log, false)[..k], RowsOf(log, false)[k].key)
  {
    var init, last := log[..|log| - 1], log[|log| - 1];
    var rows := RowsOf(init, false);
    if k < |rows| {
      RowsChange(init, k);
      assert RowsOf(log, false)[..k] == rows[..k];
    } else {
      assert RowsOf(log, false)[..k] == rows;
      RowsKeepLatest(init, false, last.key);
    }
  }

  lemma {:induction false} AllPrintsAll(log: seq<Reading>)
    ensures RowsOf(log, true) == log
  {
    if log != [] {
      AllPrintsAll(log[..|log| - 1]);
    }
  }

  /** A key's first reading is always a row, because no value is empty. */
  lemma {:induction false} FirstReadingIsRow(log: seq<Reading>, i: nat)
    requires Spoken(log) && i < |log| && forall k | 0 <= k < i :: log[k].key != log[i].key
    ensures log[i] in RowsOf(log, false)
  {
    var init, last := log[..|log| - 1], log[|log| - 1];
    if i < |init| {
      FirstReadingIsRow(init, i);
    } else {
      NeverRead(init, last.key);
      assert last in log;
    }
  }

  lemma {:induction false} NeverRead(log: seq<Reading>, key: Key)
    requires forall k | 0 <= k < |log| :: log[k].key != key
    ensures Latest(log, key) == ""
  {
    if log != [] {
      NeverRead(log[..|log| - 1], key);
    }
  }
}
