/**
 `align` of the A/B comparison: two pass lists are lined up by four rules, strongest evidence first,
 each applied to what the earlier ones left unmatched (src/py/rdc_ab.py).
 */
module Alignment {
  import opened Basics
  import opened Sorting
  import opened Occurrence
  import opened Decimal

  // ------------------------------------------------------------------ the two sides

  datatype Event = Event(eid: int, marker: string)

  /** One reconstructed pass.  `targets` are the rows the bundle wrote for its render targets. */
  datatype Pass = Pass(kind: string, structure: string, events: int, graphics: int, compute: int,
                       depth: string, targets: seq<string>, firstEid: int, lastEid: int)

  /** One bundle; `names` maps `res<id>` to the name the capture gave that resource. */
  datatype Side = Side(events: seq<Event>, passes: seq<Pass>, names: map<string, string>)

  // ------------------------------------------------------------------ the marker of a pass

  /** The first pass at or after `index` that `eid` does not lie behind. */
  function Advance(passes: seq<Pass>, eid: int, index: nat): (next: nat)
    requires index <= |passes|
    ensures index <= next <= |passes|
    ensures forall p | index <= p < next :: passes[p].lastEid < eid
    ensures next < |passes| ==> eid <= passes[next].lastEid
    decreases |passes| - index
  {
    if index < |passes| && eid > passes[index].lastEid then Advance(passes, eid, index + 1) else index
  }

  /** The event scan from event `e` on, with the pass pointer at `index`; "" is "no marker yet". */
  function MarkerScan(side: Side, e: nat, index: nat, found: seq<string>): (markers: seq<string>)
    requires e <= |side.events| && index <= |side.passes| == |found|
    ensures |markers| == |side.passes|
    decreases |side.events| - e
  {
    if e == |side.events| then found
    else
      var event := side.events[e];
      var next := Advance(side.passes, event.eid, index);
      if next == |side.passes| then found
      else if found[next] == "" && side.passes[next].firstEid <= event.eid
      then MarkerScan(side, e + 1, next, found[next := event.marker])
      else MarkerScan(side, e + 1, next, found)
  }

  function Markers(side: Side): (markers: seq<string>)
    ensures |markers| == |side.passes|
  {
    MarkerScan(side, 0, 0, seq(|side.passes|, _ => ""))
  }

  method PassMarkers(side: Side) returns (markers: seq<string>)
    ensures markers == Markers(side)
  {
    markers := seq(|side.passes|, _ => "");
    var index, e := 0, 0;
    while e < |side.events|
      invariant e <= |side.events| && index <= |side.passes| == |markers|
      invariant Markers(side) == MarkerScan(side, e, index, markers)
    {
      var event := side.events[e];
      ghost var from := index;
      while index < |side.passes| && event.eid > side.passes[index].lastEid
        invariant from <= index <= |side.passes|
        invariant Advance(side.passes, event.eid, from) == Advance(side.passes, event.eid, index)
      {
        index := index + 1;
      }
      if index >= |side.passes| {
        return;
      }
      if markers[index] == "" && side.passes[index].firstEid <= event.eid <= side.passes[index].lastEid {
        markers := markers[index := event.marker];
      }
      e := e + 1;
    }
  }

  /** Event `e` is inside pass `p` and sits in a marker. */
  predicate MarkedIn(side: Side, p: nat, e: nat)
    requires p < |side.passes| && e < |side.events|
  {
    side.passes[p].firstEid <= side.events[e].eid <= side.passes[p].lastEid && side.events[e].marker != ""
  }

  /** Events in frame order over disjoint, ordered passes: what pass reconstruction hands over. */
  predicate FrameOrdered(side: Side) {
    && (forall e, f | 0 <= e < f < |side.events| :: side.events[e].eid <= side.events[f].eid)
    && (forall p, q | 0 <= p < q < |side.passes| :: side.passes[p].lastEid < side.passes[q].firstEid)
    && (forall p | 0 <= p < |side.passes| :: side.passes[p].firstEid <= side.passes[p].lastEid)
  }

  /** `path` is the marker of the first of the events `lo..hi` that lies marked inside pass `p`. */
  ghost predicate FirstMarker(side: Side, p: nat, lo: nat, hi: nat, path: string)
    requires p < |side.passes| && lo <= hi <= |side.events|
  {
    if path == "" then forall e | lo <= e < hi :: !MarkedIn(side, p, e)
    else exists e | lo <= e < hi :: MarkedIn(side, p, e) && side.events[e].marker == path
                                    && forall f | lo <= f < e :: !MarkedIn(side, p, f)
  }

  lemma {:induction false} MarkerScanIsFirst(side: Side, e: nat, index: nat, found: seq<string>)
    requires e <= |side.events| && index <= |side.passes| == |found| && FrameOrdered(side)
    requires forall p | 0 <= p < |found| :: FirstMarker(side, p, 0, e, found[p])
    requires forall p, f | 0 <= p < index && e <= f < |side.events| :: side.passes[p].lastEid < side.events[f].eid
    ensures forall p | 0 <= p < |side.passes| ::
              FirstMarker(side, p, 0, |side.events|, MarkerScan(side, e, index, found)[p])
    decreases |side.events| - e
  {
    if e < |side.events| {
      var event := side.events[e];
      var next := Advance(side.passes, event.eid, index);
      forall p | 0 <= p < |found| && p != next
        ensures !MarkedIn(side, p, e)
      {
        assert p < index || index <= p < next || next < p;
      }
      if next == |side.passes| {
        forall p, f | 0 <= p < |found| && e <= f < |side.events|
          ensures !MarkedIn(side, p, f)
        {
          assert side.passes[p].lastEid < event.eid;
        }
        forall p | 0 <= p < |found|
          ensures FirstMarker(side, p, 0, |side.events|, found[p])
        {
          assert FirstMarker(side, p, 0, e, found[p]);
        }
      } else {
        var now := if found[next] == "" && side.passes[next].firstEid <= event.eid
                   then found[next := event.marker] else found;
        forall p | 0 <= p < |found|
          ensures FirstMarker(side, p, 0, e + 1, now[p])
        {
          assert FirstMarker(side, p, 0, e, found[p]);
        }
        MarkerScanIsFirst(side, e + 1, next, now);
      }
    }
  }

  /** In a frame whose events are in order, a pass's key is the marker of its first marked event. */
  lemma MarkersAreFirst(side: Side, p: nat)
    requires FrameOrdered(side) && p < |side.passes|
    ensures FirstMarker(side, p, 0, |side.events|, Markers(side)[p])
  {
    MarkerScanIsFirst(side, 0, 0, seq(|side.passes|, _ => ""));
  }

  // ------------------------------------------------------------------ keys

  predicate SeparatorAt(path: string, at: int) {
    0 <= at && at + 3 <= |path| && path[at..at + 3] == " > "
  }

  /** Where the last ` > ` at or before `n` starts; -1 when there is none. */
  function LastSeparator(path: string, n: int): (at: int)
    requires -1 <= n
    ensures -1 <= at <= n && (at >= 0 ==> SeparatorAt(path, at))
    ensures forall k | at < k <= n :: !SeparatorAt(path, k)
  {
    if n < 0 || SeparatorAt(path, n) then n else LastSeparator(path, n - 1)
  }

  function Strip(s: string): string {
    if s != "" && IsBlank(s[0]) then Strip(s[1..])
    else if s != "" && IsBlank(s[|s| - 1]) then Strip(s[..|s| - 1])
    else s
  }

  /** The innermost component of a marker path. */
  function Leaf(path: string): string {
    var at := LastSeparator(path, |path|);
    Strip(if at < 0 then path else path[at + 3..])
  }

  function FirstToken(s: string): string {
    if s == "" || IsBlank(s[0]) then "" else [s[0]] + FirstToken(s[1..])
  }

  /** The resource a target row starts with; "" for a row without one. */
  function TargetId(target: string): string {
    var token := FirstToken(Strip(target));
    if token == "" then "" else "res" + (if "res" <= token then token[3..] else token)
  }

  /** The names of the resources the target rows start with, as far as the capture named them. */
  function TargetNames(names: map<string, string>, targets: seq<string>): seq<string> {
    if targets == [] then []
    else
      var rest := TargetNames(names, targets[1..]);
      var id := TargetId(targets[0]);
      if id != "" && id in names then Insert(StringLess, names[id], rest) else rest
  }

  /** A pass by the resources it writes; a dispatch and a pass whose targets have no name have no key. */
  function TargetKey(side: Side, entry: Pass): string {
    var names := TargetNames(side.names, entry.targets);
    if entry.kind == "compute" || names == [] then "" else entry.kind + ": " + Join(", ", names)
  }

  // ------------------------------------------------------------------ what the keys go by

  /** The names the capture gave to what a pass writes. */
  ghost function NamedTargets(names: map<string, string>, targets: seq<string>): set<string> {
    set target | target in targets && TargetId(target) != "" && TargetId(target) in names :: names[TargetId(target)]
  }

  lemma {:induction false} TargetNamesAreNamed(names: map<string, string>, targets: seq<string>)
    ensures Strict(StringLess, TargetNames(names, targets))
    ensures forall x :: x in TargetNames(names, targets) <==> x in NamedTargets(names, targets)
  {
    if targets != [] {
      TargetNamesAreNamed(names, targets[1..]);
      assert targets == [targets[0]] + targets[1..];
      var id := TargetId(targets[0]);
      if id != "" && id in names {
        StringsOrder();
        InsertKeeps(StringLess, names[id], TargetNames(names, targets[1..]));
        assert NamedTargets(names, targets) == {names[id]} + NamedTargets(names, targets[1..]);
      } else {
        assert NamedTargets(names, targets) == NamedTargets(names, targets[1..]);
      }
    }
  }

  /** A target key goes by the kind and the set of names alone, and is empty without any or for a dispatch. */
  lemma TargetKeyGoesByNames(side: Side, p: Pass, other: Side, q: Pass)
    ensures TargetKey(side, p) == "" <==> p.kind == "compute" || NamedTargets(side.names, p.targets) == {}
    ensures p.kind == q.kind && NamedTargets(side.names, p.targets) == NamedTargets(other.names, q.targets)
            ==> TargetKey(side, p) == TargetKey(other, q)
  {
    var xs, ys := TargetNames(side.names, p.targets), TargetNames(other.names, q.targets);
    TargetNamesAreNamed(side.names, p.targets);
    TargetNamesAreNamed(other.names, q.targets);
    assert xs != [] ==> xs[0] in NamedTargets(side.names, p.targets);
    if NamedTargets(side.names, p.targets) == NamedTargets(other.names, q.targets) {
      StringsOrder();
      StrictIsUnique(StringLess, xs, ys);
    }
  }

  // What a key tells: its parts, which are the names as long as no name holds the separator.

  function FirstComma(text: string): (n: nat)
    ensures n <= |text| && (n < |text| ==> n + 2 <= |text| && text[n] == ',' && text[n + 1] == ' ')
  {
    if |text| < 2 then |text|
    else if text[0] == ',' && text[1] == ' ' then 0
    else 1 + FirstComma(text[1..])
  }

  function Split(text: string): (parts: seq<string>)
    ensures parts != []
  {
    var n := FirstComma(text);
    if n == |text| then [text] else [text[..n]] + Split(text[n + 2..])
  }

  function Parts(names: seq<string>): seq<string> {
    if names == [] then [] else Split(names[0]) + Parts(names[1..])
  }

  /** Behind a text, the separator is found where the text has none of its own. */
  lemma {:induction false} FirstCommaOf(a: string, b: string)
    ensures FirstComma(a + (", " + b)) == FirstComma(a)
  {
    var s := a + (", " + b);
    if a == "" {
      assert s == ", " + b;
    } else {
      assert s[1..] == a[1..] + (", " + b);
      FirstCommaOf(a[1..], b);
    }
  }

  lemma {:induction false} SplitOf(a: string, b: string)
    ensures Split(a + (", " + b)) == Split(a) + Split(b)
    decreases |a|
  {
    var n := FirstComma(a);
    FirstCommaOf(a, b);
    if n == |a| {
      CutAt(a, ", ", b);
    } else {
      SplitOf(a[n + 2..], b);
      CutBehind(a, ", " + b, n);
      CutBehind(a, ", " + b, n + 2);
      SplitBoth(a + (", " + b), a, n, Split(b));
    }
  }

  lemma SplitBoth(s: string, a: string, n: nat, ys: seq<string>)
    requires FirstComma(s) == FirstComma(a) == n < |a| && n + 2 <= |s| && s[..n] == a[..n]
    requires Split(s[n + 2..]) == Split(a[n + 2..]) + ys
    ensures Split(s) == Split(a) + ys
  {
    Assoc([a[..n]], Split(a[n + 2..]), ys);
  }

  lemma CutAt(a: string, separator: string, b: string)
    ensures (a + (separator + b))[..|a|] == a && (a + (separator + b))[|a| + |separator|..] == b
  {
  }

  lemma CutBehind(a: string, tail: string, k: nat)
    requires k <= |a|
    ensures (a + tail)[..k] == a[..k] && (a + tail)[k..] == a[k..] + tail
  {
  }

  lemma {:induction false} SplitJoin(names: seq<string>)
    requires names != []
    ensures Split(Join(", ", names)) == Parts(names)
  {
    if |names| > 1 {
      SplitJoin(names[1..]);
      SplitOf(names[0], Join(", ", names[1..]));
      assert names[0] + ", " + Join(", ", names[1..]) == names[0] + (", " + Join(", ", names[1..]));
    } else {
      assert Split(names[0]) + [] == Split(names[0]);
    }
  }

  lemma CutAtComma(text: string, n: nat)
    requires n == FirstComma(text) < |text|
    ensures text == text[..n] + ", " + text[n + 2..]
  {
    assert text[n..n + 2] == ", ";
    CutTwice(text, n, n + 2);
  }

  lemma CutTwice(text: string, from: nat, to: nat)
    requires from <= to <= |text|
    ensures text == text[..from] + text[from..to] + text[to..]
  {
  }

  lemma {:induction false} JoinSplit(text: string)
    ensures Join(", ", Split(text)) == text
    decreases |text|
  {
    var n := FirstComma(text);
    if n < |text| {
      var rest := text[n + 2..];
      JoinSplit(rest);
      assert Split(text)[1..] == Split(rest);
      CutAtComma(text, n);
    }
  }

  lemma {:induction false} PartsOfPlain(names: seq<string>)
    requires forall x | x in names :: Split(x) == [x]
    ensures Parts(names) == names
  {
    if names != [] {
      PartsOfPlain(names[1..]);
    }
  }

  lemma KindTells(k: string, s: string, l: string, t: string)
    requires ':' !in k && ':' !in l
    ensures k + ": " + s == l + ": " + t <==> k == l && s == t
  {
    var x, y := k + ": " + s, l + ": " + t;
    assert x[|k|] == ':' && forall i | 0 <= i < |k| :: x[i] == k[i] && x[i] != ':';
    assert y[|l|] == ':' && forall i | 0 <= i < |l| :: y[i] == l[i] && y[i] != ':';
    if x == y {
      assert k == x[..|k|] && l == y[..|l|] && s == x[|k| + 2..] && t == y[|l| + 2..];
    }
  }

  /** Two keys are equal exactly when the kinds are and the names have the same parts; where no name holds the
      separator, exactly when the passes write the same names. */
  lemma TargetKeyTellsNames(side: Side, p: Pass, other: Side, q: Pass)
    requires TargetKey(side, p) != "" && TargetKey(other, q) != "" && ':' !in p.kind && ':' !in q.kind
    ensures TargetKey(side, p) == TargetKey(other, q)
            <==> p.kind == q.kind && Parts(TargetNames(side.names, p.targets)) == Parts(TargetNames(other.names, q.targets))
    ensures (forall x | x in NamedTargets(side.names, p.targets) + NamedTargets(other.names, q.targets) :: Split(x) == [x])
            ==> (TargetKey(side, p) == TargetKey(other, q)
                 <==> p.kind == q.kind && NamedTargets(side.names, p.targets) == NamedTargets(other.names, q.targets))
  {
    var xs, ys := TargetNames(side.names, p.targets), TargetNames(other.names, q.targets);
    KindTells(p.kind, Join(", ", xs), q.kind, Join(", ", ys));
    PartsTell(xs, ys);
    TargetNamesAreNamed(side.names, p.targets);
    TargetNamesAreNamed(other.names, q.targets);
    if forall x | x in NamedTargets(side.names, p.targets) + NamedTargets(other.names, q.targets) :: Split(x) == [x] {
      PartsOfPlain(xs);
      PartsOfPlain(ys);
      TargetKeyGoesByNames(side, p, other, q);
    }
  }

  lemma PartsTell(xs: seq<string>, ys: seq<string>)
    requires xs != [] && ys != []
    ensures Join(", ", xs) == Join(", ", ys) <==> Parts(xs) == Parts(ys)
  {
    SplitJoin(xs);
    SplitJoin(ys);
    JoinSplit(Join(", ", xs));
    JoinSplit(Join(", ", ys));
  }

  /** An input: a pass that writes one resource, whose name holds the separator, and one that writes two. */
  lemma TargetKeysRunTogether(p: Pass, q: Pass)
    requires p.kind == q.kind != "compute" && p.targets == ["1"] && q.targets == ["2", "3"]
    ensures var side := Side([], [p, q], map["res1" := "x, y", "res2" := "x", "res3" := "y"]);
            && TargetKey(side, p) == TargetKey(side, q) != ""
            && NamedTargets(side.names, p.targets) != NamedTargets(side.names, q.targets)
  {
    var names := map["res1" := "x, y", "res2" := "x", "res3" := "y"];
    ThreeTargets();
    OneTarget(names, "1", "res1");
    OneTarget(names, "3", "res3");
    TwoTargets(names, "2", "res2", ["3"]);
    assert q.targets == ["2"] + ["3"];
    BeforeY();
    assert TargetNames(names, p.targets) == ["x, y"] && TargetNames(names, q.targets) == ["x", "y"];
    TargetNamesAreNamed(names, p.targets);
    TargetNamesAreNamed(names, q.targets);
    assert "x, y" in TargetNames(names, p.targets) && "x, y" !in TargetNames(names, q.targets);
  }

  lemma BeforeY()
    ensures Insert(StringLess, "x", ["y"]) == ["x", "y"] && Join(", ", ["x", "y"]) == "x, y" == Join(", ", ["x, y"])
  {
    assert StringLess("x", "y") && ["x", "y"][1..] == ["y"];
    assert "x" + ", " + "y" == "x, y";
  }

  lemma ThreeTargets()
    ensures TargetId("1") == "res1" && TargetId("2") == "res2" && TargetId("3") == "res3"
  {
    OneDigitTarget('1');
    OneDigitTarget('2');
    OneDigitTarget('3');
    assert "1" == ['1'] && "2" == ['2'] && "3" == ['3'];
    assert "res" + ['1'] == "res1" && "res" + ['2'] == "res2" && "res" + ['3'] == "res3";
  }

  lemma OneDigitTarget(c: char)
    requires IsDigit(c)
    ensures TargetId([c]) == "res" + [c]
  {
    assert Strip([c]) == [c] && [c][1..] == "" && FirstToken("") == "";
    assert FirstToken([c]) == [c] + "" == [c];
  }

  lemma OneTarget(names: map<string, string>, target: string, id: string)
    requires TargetId(target) == id != "" && id in names
    ensures TargetNames(names, [target]) == [names[id]]
  {
    assert [target][1..] == [] && TargetNames(names, []) == [];
  }

  lemma TwoTargets(names: map<string, string>, target: string, id: string, rest: seq<string>)
    requires TargetId(target) == id != "" && id in names
    ensures TargetNames(names, [target] + rest) == Insert(StringLess, names[id], TargetNames(names, rest))
  {
    assert ([target] + rest)[1..] == rest;
  }

  /** The leaf of a path is what follows its last separator. */
  lemma LeafIsInnermost(prefix: string, name: string)
    requires Strip(name) == name && forall k | 0 < k <= |name| :: !SeparatorAt(" > " + name, k)
    ensures Leaf(prefix + " > " + name) == name
  {
    var text := " > " + name;
    var path := prefix + " > " + name;
    assert path == prefix + text && |path| == |prefix| + |text|;
    var at := LastSeparator(path, |path|);
    SeparatorShift(prefix, text, |prefix|);
    assert text[0..3] == " > ";
    if at > |prefix| {
      SeparatorShift(prefix, text, at);
    }
    assert path[|prefix| + 3..] == name;
  }

  lemma SeparatorShift(prefix: string, text: string, at: nat)
    requires at >= |prefix|
    ensures SeparatorAt(prefix + text, at) <==> SeparatorAt(text, at - |prefix|)
  {
    if at + 3 <= |prefix + text| {
      assert (prefix + text)[at..at + 3] == text[at - |prefix|..at - |prefix| + 3];
    }
  }

  /** The call kind as a key: never the empty one, whatever the kind is spelled. */
  ghost function KindKey(kind: string): (key: string)
    ensures key != "" && key[1..] == kind
  {
    ":" + kind
  }

  /** What the rules go by: for every pass of a side its marker path, leaf, target key and call kind. */
  datatype SideKeys = SideKeys(paths: seq<string>, leaves: seq<string>, targets: seq<string>, kinds: seq<string>)

  type Keys = k: SideKeys | |k.paths| == |k.leaves| == |k.targets| == |k.kinds| witness SideKeys([], [], [], [])

  function KeysOf(side: Side, paths: seq<string>): (keys: Keys)
    requires |paths| == |side.passes|
    ensures |keys.paths| == |side.passes|
    ensures forall i | 0 <= i < |paths| ::
              && keys.paths[i] == paths[i] && keys.leaves[i] == Leaf(paths[i])
              && keys.targets[i] == TargetKey(side, side.passes[i]) && keys.kinds[i] == side.passes[i].kind
  {
    SideKeys(paths,
             seq(|paths|, i requires 0 <= i < |paths| => Leaf(paths[i])),
             seq(|paths|, i requires 0 <= i < |paths| => TargetKey(side, side.passes[i])),
             seq(|paths|, i requires 0 <= i < |paths| => side.passes[i].kind))
  }

  function SideKeysOf(side: Side): (keys: Keys)
    ensures |keys.paths| == |side.passes|
  {
    KeysOf(side, Markers(side))
  }

  /** Call order asks for the call kind and applies only to a pass that sits in no marker. */
  ghost function CallKeys(paths: seq<string>, kinds: seq<string>): (keys: seq<string>)
    requires |paths| == |kinds|
    ensures |keys| == |paths|
    ensures forall i | 0 <= i < |keys| :: keys[i] == if paths[i] == "" then KindKey(kinds[i]) else ""
  {
    seq(|paths|, i requires 0 <= i < |paths| => if paths[i] == "" then KindKey(kinds[i]) else "")
  }

  // ------------------------------------------------------------------ the alignment, specified

  ghost function ByPath(a: Keys, b: Keys): Pairs {
    RuleStep(a.paths, b.paths, {})
  }

  ghost function ByLeaf(a: Keys, b: Keys): Pairs {
    RuleStep(a.leaves, b.leaves, ByPath(a, b))
  }

  ghost function ByTargets(a: Keys, b: Keys): Pairs {
    RuleStep(a.targets, b.targets, ByLeaf(a, b))
  }

  /** The pairs of pass indices the four rules make, one after the other. */
  ghost function Aligned(a: Keys, b: Keys): Pairs {
    RuleStep(CallKeys(a.paths, a.kinds), CallKeys(b.paths, b.kinds), ByTargets(a, b))
  }

  lemma StagesAreSymmetric(a: Keys, b: Keys)
    ensures ByTargets(b, a) == Swap(ByTargets(a, b))
  {
    assert Swap({}) == {};
    RuleStepIsSymmetric(a.paths, b.paths, {});
    RuleStepIsSymmetric(a.leaves, b.leaves, ByPath(a, b));
    RuleStepIsSymmetric(a.targets, b.targets, ByLeaf(a, b));
  }

  /** Aligning the sides the other way round finds the inverse relation. */
  lemma AlignedIsSymmetric(a: Keys, b: Keys)
    ensures Aligned(b, a) == Swap(Aligned(a, b))
  {
    StagesAreSymmetric(a, b);
    RuleStepIsSymmetric(CallKeys(a.paths, a.kinds), CallKeys(b.paths, b.kinds), ByTargets(a, b));
  }

  ghost predicate InRange(pairs: Pairs, m: nat, n: nat) {
    forall p | p in pairs :: p.0 < m && p.1 < n
  }

  /** The alignment is a partial bijection between the two pass lists. */
  lemma AlignedIsOneToOne(a: Keys, b: Keys)
    ensures OneToOne(Aligned(a, b))
    ensures InRange(Aligned(a, b), |a.paths|, |b.paths|)
  {
    RuleStepKeepsOneToOne(a.paths, b.paths, {});
    RuleStepKeepsOneToOne(a.leaves, b.leaves, ByPath(a, b));
    RuleStepKeepsOneToOne(a.targets, b.targets, ByLeaf(a, b));
    RuleStepKeepsOneToOne(CallKeys(a.paths, a.kinds), CallKeys(b.paths, b.kinds), ByTargets(a, b));
  }

  /** What one rule could still match stays unmatched by no later rule. */
  lemma LaterRulesOnlyAdd(ka: seq<string>, kb: seq<string>, prev: Pairs, last: Pairs, i: nat, j: nat)
    requires RuleStep(ka, kb, prev) <= last
    requires i < |ka| && j < |kb| && i !in Lefts(last) && j !in Rights(last)
    ensures ka[i] == kb[j] ==> ka[i] == ""
  {
    if ka[i] == kb[j] != "" {
      RuleStepIsMaximal(ka, kb, prev, i, j);
    }
  }

  /** No unmatched pass of A and unmatched pass of B share evidence that any rule goes by. */
  lemma AlignedIsMaximal(a: Keys, b: Keys, i: nat, j: nat)
    requires i < |a.paths| && i !in Lefts(Aligned(a, b))
    requires j < |b.paths| && j !in Rights(Aligned(a, b))
    ensures a.paths[i] == b.paths[j] ==> a.paths[i] == ""
    ensures a.leaves[i] == b.leaves[j] ==> a.leaves[i] == ""
    ensures a.targets[i] == b.targets[j] ==> a.targets[i] == ""
    ensures a.paths[i] == b.paths[j] == "" ==> a.kinds[i] != b.kinds[j]
  {
    var last := Aligned(a, b);
    LaterRulesOnlyAdd(a.paths, b.paths, {}, last, i, j);
    LaterRulesOnlyAdd(a.leaves, b.leaves, ByPath(a, b), last, i, j);
    LaterRulesOnlyAdd(a.targets, b.targets, ByLeaf(a, b), last, i, j);
    LaterRulesOnlyAdd(CallKeys(a.paths, a.kinds), CallKeys(b.paths, b.kinds), ByTargets(a, b), last, i, j);
  }

  /** A side aligned with itself pairs every pass with itself, and with nothing else. */
  lemma AlignedWithItself(a: Keys)
    ensures Aligned(a, a) == Diagonal(|a.paths|)
  {
    RuleStepOnSelf(a.paths, {});
    RuleStepOnSelf(a.leaves, ByPath(a, a));
    RuleStepOnSelf(a.targets, ByLeaf(a, a));
    RuleStepOnSelf(CallKeys(a.paths, a.kinds), ByTargets(a, a));
    forall i: nat | i < |a.paths|
      ensures (i, i) in Aligned(a, a)
    {
      if a.paths[i] != "" {
        assert (i, i) in ByPath(a, a);
      }
    }
  }

  // ------------------------------------------------------------------ the alignment, computed

  datatype Rule = PathRule | LeafRule | TargetRule

  /** The note a pair carries about the rule that made it; a path match needs none. */
  function NoteOf(rule: Rule, key: string): string {
    match rule
    case PathRule => ""
    case LeafRule => "aligned by the innermost marker name `" + key + "`: the full paths differ"
    case TargetRule => "aligned by the resources both passes write (" + key + ")"
  }

  const CALL_ORDER_HEAD := "aligned by call order (pass "
  const CALL_ORDER_TAIL := " of each) and the call kind: neither pass sits in a marker"

  function CallOrderNote(index: nat): string {
    CALL_ORDER_HEAD + NatText(index + 1) + CALL_ORDER_TAIL
  }

  /** The three tables the nested matcher shares with `align`. */
  class Aligner {
    const m: nat
    const n: nat
    var paired: map<nat, nat>
    var how: map<nat, string>
    var taken: seq<bool>

    ghost predicate Valid()
      reads this
    {
      && |taken| == n
      && how.Keys == paired.Keys
      && (forall i | i in paired :: i < m && paired[i] < n)
      && (forall j | 0 <= j < n :: taken[j] <==> j in paired.Values)
    }

    ghost function Matched(): Pairs
      reads this
    {
      set i | i in paired :: (i, paired[i])
    }

    lemma MatchedSides()
      requires Valid()
      ensures Lefts(Matched()) == paired.Keys
      ensures Rights(Matched()) == paired.Values
    {
      forall i | i in paired
        ensures i in Lefts(Matched()) && paired[i] in Rights(Matched())
      {
        assert (i, paired[i]) in Matched();
      }
    }

    constructor (m: nat, n: nat)
      ensures Valid() && Matched() == {} && how == map[] && this.m == m && this.n == n
    {
      this.m, this.n := m, n;
      paired, how := map[], map[];
      taken := seq(n, _ => false);
    }

    /** Record one match: the assignments every rule makes. */
    method Pair(other: nat, index: nat, note: string)
      requires Valid() && other < m && index < n && other !in paired && !taken[index]
      modifies this
      ensures Valid() && Matched() == old(Matched()) + {(other, index)}
      ensures paired.Keys == old(paired).Keys + {other}
      ensures taken == old(taken)[index := true] && how == old(how)[other := note]
    {
      ghost var was := paired;
      paired := paired[other := index];
      taken := taken[index := true];
      how := how[other := note];
      assert paired.Values == was.Values + {index} by {
        assert forall i | i in was :: i in paired && paired[i] == was[i];
        assert other in paired;
      }
      assert Matched() == old(Matched()) + {(other, index)} by {
        assert paired[other] == index && forall i | i in was :: paired[i] == was[i];
        assert (other, index) in Matched() && forall i | i in was :: (i, was[i]) in Matched();
      }
    }

    /** The unpaired passes of A by key, each queue in pass order. */
    method CollectQueues(keysA: seq<string>) returns (queues: map<string, seq<nat>>)
      requires Valid() && |keysA| == m
      ensures forall key | key != "" :: QueueOf(queues, key) == Queue(keysA, Lefts(Matched()), key, m)
    {
      MatchedSides();
      queues := map[];
      for index := 0 to m
        invariant forall key | key != "" :: QueueOf(queues, key) == Queue(keysA, Lefts(Matched()), key, index)
      {
        var key := keysA[index];
        if index !in paired && key != "" {
          queues := queues[key := QueueOf(queues, key) + [index]];
        }
      }
    }

    /** One pass of B asks its key's queue for a partner. */
    method Serve(queues: map<string, seq<nat>>, keysA: seq<string>, keysB: seq<string>, index: nat, rule: Rule,
                 ghost prev: Pairs)
      returns (rest: map<string, seq<nat>>)
      requires Valid() && |keysA| == m && |keysB| == n && index < n
      requires Matched() == prev + FreshBelow(keysA, keysB, prev, index)
      requires taken[index] <==> index in Rights(prev)
      requires Served(queues, keysA, keysB, prev, index)
      modifies this
      ensures Valid()
      ensures Matched() == prev + FreshBelow(keysA, keysB, prev, index + 1)
      ensures Served(rest, keysA, keysB, prev, index + 1)
      ensures old(paired).Keys <= paired.Keys && taken[index + 1..] == old(taken)[index + 1..]
      ensures forall i | i in how :: i < m && how[i] == if i in old(how) then old(how)[i] else NoteOf(rule, keysA[i])
    {
      rest := queues;
      var key := keysB[index];
      FreshBelowNext(keysA, keysB, prev, index);
      ServedNext(queues, keysA, keysB, prev, index);
      if taken[index] || key == "" {
        return;
      }
      var queue := QueueOf(queues, key);
      if queue == [] {
        return;
      }
      NotYetPaired(keysA, keysB, prev, index);
      MatchedSides();
      rest := queues[key := queue[1..]];
      Pair(queue[0], index, NoteOf(rule, key));
    }

    /** One rule over both lists: B's passes take A's of the same key, first come, first served. */
    method Match(keysA: seq<string>, keysB: seq<string>, rule: Rule)
      requires Valid() && |keysA| == m && |keysB| == n
      modifies this
      ensures Valid()
      ensures Matched() == RuleStep(keysA, keysB, old(Matched()))
      ensures old(paired).Keys <= paired.Keys
      ensures forall i | i in how :: i < m && how[i] == if i in old(how) then old(how)[i] else NoteOf(rule, keysA[i])
    {
      ghost var prev := Matched();
      MatchedSides();
      var queues := CollectQueues(keysA);
      for index := 0 to n
        invariant Valid()
        invariant taken[index..] == old(taken)[index..]
        invariant Matched() == prev + FreshBelow(keysA, keysB, prev, index)
        invariant Served(queues, keysA, keysB, prev, index)
        invariant old(paired).Keys <= paired.Keys
        invariant forall i | i in how :: i < m && how[i] == if i in old(how) then old(how)[i] else NoteOf(rule, keysA[i])
      {
        assert taken[index] == taken[index..][0] == old(taken)[index];
        queues := Serve(queues, keysA, keysB, index, rule, prev);
      }
      assert FreshBelow(keysA, keysB, prev, n) == Fresh(keysA, keysB, prev);
    }

    /** The untaken passes of B that sit in no marker, in order. */
    static method CollectLoose(paths: seq<string>, kinds: seq<string>, taken: seq<bool>, ghost used: set<nat>)
      returns (loose: seq<nat>)
      requires |paths| == |kinds| == |taken| && forall j | 0 <= j < |taken| :: taken[j] <==> j in used
      ensures LooseList(paths, loose) && forall e | e in loose :: !taken[e]
      ensures Listed(loose, CallKeys(paths, kinds), used, |paths|)
    {
      ghost var keys := CallKeys(paths, kinds);
      loose := [];
      for index: nat := 0 to |paths|
        invariant LooseSoFar(loose, paths, taken, keys, used, index)
      {
        LooseNext(loose, paths, taken, keys, used, index);
        if !taken[index] && paths[index] == "" {
          loose := loose + [index];
        }
      }
    }

    /** The first loose pass of the given call kind, taken off the list. */
    static method TakeOfKind(paths: seq<string>, kinds: seq<string>, loose: seq<nat>, kind: string)
      returns (found: bool, other: nat, rest: seq<nat>)
      requires |paths| == |kinds| && LooseList(paths, loose)
      ensures LooseList(paths, rest) && forall e | e in rest :: e in loose
      ensures TookOfKind(CallKeys(paths, kinds), loose, KindKey(kind), found, other, rest)
    {
      ghost var keys, want := CallKeys(paths, kinds), KindKey(kind);
      for t := 0 to |loose|
        invariant forall u | 0 <= u < t :: keys[loose[u]] != want
      {
        if kinds[loose[t]] != kind {
          assert keys[loose[t]][1..] != want[1..];
          continue;
        }
        rest := loose[..t] + loose[t + 1..];
        TookFirst(paths, keys, loose, want, t);
        return true, loose[t], rest;
      }
      WithKeyNone(loose, keys, want);
      return false, 0, loose;
    }

    /** The passes of A below `index` are served; `loose` is what they left of B's loose passes. */
    ghost predicate Serving(pathsA: seq<string>, kindsA: seq<string>, pathsB: seq<string>, kindsB: seq<string>,
                            loose: seq<nat>, back: Pairs, index: nat)
      requires |pathsA| == |kindsA| == m && |pathsB| == |kindsB| == n && index <= m
      reads this
    {
      && Valid() && LooseList(pathsB, loose) && (forall e | e in loose :: !taken[e])
      && Swap(Matched()) == back + FreshBelow(CallKeys(pathsB, kindsB), CallKeys(pathsA, kindsA), back, index)
      && ListServed(loose, CallKeys(pathsB, kindsB), CallKeys(pathsA, kindsA), back, index)
      && forall i | index <= i < m :: i in paired <==> i in Rights(back)
    }

    /** A paired pass and a named one are passed over. */
    lemma PassedOver(pathsA: seq<string>, kindsA: seq<string>, pathsB: seq<string>, kindsB: seq<string>,
                     loose: seq<nat>, back: Pairs, index: nat)
      requires |pathsA| == |kindsA| == m && |pathsB| == |kindsB| == n && index < m
      requires Serving(pathsA, kindsA, pathsB, kindsB, loose, back, index) && (index in paired || pathsA[index] != "")
      ensures Serving(pathsA, kindsA, pathsB, kindsB, loose, back, index + 1)
    {
      SkipNext(loose, CallKeys(pathsB, kindsB), CallKeys(pathsA, kindsA), back, index);
    }

    /** One unnamed, unpaired pass of A takes the first loose pass of B of its kind. */
    method ServeLoose(pathsA: seq<string>, kindsA: seq<string>, pathsB: seq<string>, kindsB: seq<string>,
                      loose: seq<nat>, index: nat, ghost back: Pairs)
      returns (rest: seq<nat>)
      requires |pathsA| == |kindsA| == m && |pathsB| == |kindsB| == n && index < m
      requires Serving(pathsA, kindsA, pathsB, kindsB, loose, back, index)
      requires pathsA[index] == "" && index !in paired
      modifies this
      ensures Serving(pathsA, kindsA, pathsB, kindsB, rest, back, index + 1)
      ensures how == old(how) || how == old(how)[index := CallOrderNote(index)]
    {
      var found, other;
      found, other, rest := TakeOfKind(pathsB, kindsB, loose, kindsA[index]);
      LooseStep(CallKeys(pathsA, kindsA), CallKeys(pathsB, kindsB), loose, index, back, found, other, rest);
      if found {
        SwapStep(Matched(), back, FreshBelow(CallKeys(pathsB, kindsB), CallKeys(pathsA, kindsA), back, index), index, other);
        Pair(index, other, CallOrderNote(index));
      }
    }

    /** Call order, for the passes no other rule could place: weakest evidence, so it goes last. */
    method CallOrder(pathsA: seq<string>, kindsA: seq<string>, pathsB: seq<string>, kindsB: seq<string>)
      requires Valid() && |pathsA| == |kindsA| == m && |pathsB| == |kindsB| == n
      modifies this
      ensures Valid()
      ensures Matched() == RuleStep(CallKeys(pathsA, kindsA), CallKeys(pathsB, kindsB), old(Matched()))
      ensures forall i | i in how :: how[i] == if i in old(how) then old(how)[i] else CallOrderNote(i)
    {
      ghost var ka, kb, prev := CallKeys(pathsA, kindsA), CallKeys(pathsB, kindsB), Matched();
      MatchedSides();
      SwapSides(prev);
      var loose := CollectLoose(pathsB, kindsB, taken, Rights(prev));
      ServeInOrder(pathsA, kindsA, pathsB, kindsB, loose, Swap(prev));
      CallOrderDone(ka, kb, prev, Matched());
    }

    /** The unnamed, unpaired passes of A, in order. */
    method ServeInOrder(pathsA: seq<string>, kindsA: seq<string>, pathsB: seq<string>, kindsB: seq<string>,
                        list: seq<nat>, ghost back: Pairs)
      requires |pathsA| == |kindsA| == m && |pathsB| == |kindsB| == n
      requires Serving(pathsA, kindsA, pathsB, kindsB, list, back, 0)
      modifies this
      ensures Valid()
      ensures Swap(Matched()) == back + FreshBelow(CallKeys(pathsB, kindsB), CallKeys(pathsA, kindsA), back, m)
      ensures forall i | i in how :: how[i] == if i in old(how) then old(how)[i] else CallOrderNote(i)
    {
      var loose := list;
      for index := 0 to m
        invariant Serving(pathsA, kindsA, pathsB, kindsB, loose, back, index)
        invariant forall i | i in how :: how[i] == if i in old(how) then old(how)[i] else CallOrderNote(i)
      {
        if index in paired || pathsA[index] != "" {
          PassedOver(pathsA, kindsA, pathsB, kindsB, loose, back, index);
          continue;
        }
        loose := ServeLoose(pathsA, kindsA, pathsB, kindsB, loose, index, back);
      }
    }
  }

  ghost predicate LooseList(paths: seq<string>, loose: seq<nat>) {
    && (forall t | 0 <= t < |loose| :: loose[t] < |paths| && paths[loose[t]] == "")
    && (forall t, u | 0 <= t < u < |loose| :: loose[t] < loose[u])
  }

  /** The loose passes below `index`. */
  ghost predicate LooseSoFar(loose: seq<nat>, paths: seq<string>, taken: seq<bool>, keys: seq<string>, used: set<nat>,
                             index: nat)
    requires |keys| == |paths| == |taken| && index <= |paths|
  {
    LooseList(paths, loose) && Listed(loose, keys, used, index)
    && forall t | 0 <= t < |loose| :: loose[t] < index && !taken[loose[t]]
  }

  lemma LooseNext(loose: seq<nat>, paths: seq<string>, taken: seq<bool>, keys: seq<string>, used: set<nat>, index: nat)
    requires |keys| == |paths| == |taken| && index < |paths|
    requires keys[index] != "" <==> paths[index] == ""
    requires taken[index] <==> index in used
    requires LooseSoFar(loose, paths, taken, keys, used, index)
    ensures LooseSoFar(if !taken[index] && paths[index] == "" then loose + [index] else loose, paths, taken, keys, used, index + 1)
  {
    ListedNext(loose, keys, used, index);
    if !taken[index] && paths[index] == "" {
      LooseGrows(loose, paths, taken, index);
    }
  }

  lemma LooseGrows(loose: seq<nat>, paths: seq<string>, taken: seq<bool>, index: nat)
    requires |paths| == |taken| && index < |paths| && !taken[index] && paths[index] == "" && LooseList(paths, loose)
    requires forall t | 0 <= t < |loose| :: loose[t] < index && !taken[loose[t]]
    ensures LooseList(paths, loose + [index])
    ensures forall t | 0 <= t < |loose + [index]| :: (loose + [index])[t] < index + 1 && !taken[(loose + [index])[t]]
  {
  }

  /** `other` is the first of the list that carries `want`, `rest` the list without it. */
  ghost predicate TookOfKind(keys: seq<string>, loose: seq<nat>, want: string, found: bool, other: nat, rest: seq<nat>) {
    var queue := WithKey(loose, keys, want);
    if found then
      && other in loose && other !in rest && queue != [] && queue[0] == other
      && forall key :: WithKey(loose, keys, key) == (if key == want then [other] else []) + WithKey(rest, keys, key)
    else queue == [] && rest == loose
  }

  lemma TookFirst(paths: seq<string>, keys: seq<string>, loose: seq<nat>, want: string, t: nat)
    requires LooseList(paths, loose) && |keys| == |paths| && t < |loose|
    requires keys[loose[t]] == want && forall u | 0 <= u < t :: keys[loose[u]] != want
    ensures var rest := loose[..t] + loose[t + 1..];
            LooseList(paths, rest) && (forall e | e in rest :: e in loose)
            && TookOfKind(keys, loose, want, true, loose[t], rest)
  {
    var rest := loose[..t] + loose[t + 1..];
    forall key
      ensures WithKey(loose, keys, key) == (if key == want then [loose[t]] else []) + WithKey(rest, keys, key)
    {
      WithKeyRemove(loose, t, keys, key);
    }
  }

  lemma SkipNext(loose: seq<nat>, ka: seq<string>, kb: seq<string>, back: Pairs, index: nat)
    requires index < |kb| && ListServed(loose, ka, kb, back, index) && !Free(kb, Rights(back), kb[index], index)
    ensures FreshBelow(ka, kb, back, index + 1) == FreshBelow(ka, kb, back, index)
    ensures ListServed(loose, ka, kb, back, index + 1)
  {
    FreshBelowNext(ka, kb, back, index);
    ListServedNext(loose, loose, ka, kb, back, index);
  }

  lemma LooseStep(ka: seq<string>, kb: seq<string>, loose: seq<nat>, index: nat, back: Pairs,
                  found: bool, other: nat, rest: seq<nat>)
    requires index < |ka| && ka[index] != "" && index !in Rights(back)
    requires ListServed(loose, kb, ka, back, index)
    requires TookOfKind(kb, loose, ka[index], found, other, rest)
    ensures ListServed(rest, kb, ka, back, index + 1)
    ensures FreshBelow(kb, ka, back, index + 1)
            == FreshBelow(kb, ka, back, index) + if found then {(other, index)} else {}
  {
    ListServedNext(loose, rest, kb, ka, back, index);
    FreshBelowNext(kb, ka, back, index);
  }

  /** Serving A's passes from B's list finds what the rule says of A against B. */
  lemma CallOrderDone(ka: seq<string>, kb: seq<string>, prev: Pairs, now: Pairs)
    requires Swap(now) == Swap(prev) + FreshBelow(kb, ka, Swap(prev), |ka|)
    ensures now == RuleStep(ka, kb, prev)
  {
    assert FreshBelow(kb, ka, Swap(prev), |ka|) == Fresh(kb, ka, Swap(prev));
    RuleStepIsSymmetric(ka, kb, prev);
    assert Swap(Swap(now)) == now;
    assert Swap(Swap(RuleStep(ka, kb, prev))) == RuleStep(ka, kb, prev);
  }

  lemma SwapStep(pairs: Pairs, back: Pairs, below: Pairs, i: nat, j: nat)
    requires Swap(pairs) == back + below
    ensures Swap(pairs + {(i, j)}) == back + (below + {(j, i)})
  {
    SwapAdd(pairs, i, j);
    assert (back + below) + {(j, i)} == back + (below + {(j, i)});
  }

  lemma SwapAdd(pairs: Pairs, i: nat, j: nat)
    ensures Swap(pairs + {(i, j)}) == Swap(pairs) + {(j, i)}
  {
    assert forall p | p in pairs :: (p.1, p.0) in Swap(pairs + {(i, j)});
    assert (j, i) in Swap(pairs + {(i, j)}) by {
      assert (i, j) in pairs + {(i, j)};
    }
  }

  // ------------------------------------------------------------------ the rows

  /** One aligned pair, or a pass only one side has; passes are given by their index on their side. */
  datatype AbRow = AbRow(path: string, status: string, a: Option<nat>, b: Option<nat>, note: string)

  function PathOr(path: string, index: nat, side: string): string {
    if path != "" then path else "pass " + NatText(index + 1) + " of " + side
  }

  function MovedNote(i: nat, j: nat): string {
    if i == j then ""
    else "moved: pass " + NatText(i + 1) + " of A is pass " + NatText(j + 1) + " of B"
  }

  function JoinNotes(how: string, moved: string): string {
    if how == "" then moved else if moved == "" then how else how + "; " + moved
  }

  /** Which rule matched pass `i` of A, in the words its row carries. */
  ghost function Evidence(a: Keys, b: Keys, i: nat): string
    requires i < |a.paths|
  {
    if i in Lefts(ByPath(a, b)) then ""
    else if i in Lefts(ByLeaf(a, b)) then NoteOf(LeafRule, a.leaves[i])
    else if i in Lefts(ByTargets(a, b)) then NoteOf(TargetRule, a.targets[i])
    else CallOrderNote(i)
  }

  lemma LeftsGrow(a: Keys, b: Keys)
    ensures Lefts(ByPath(a, b)) <= Lefts(ByLeaf(a, b)) <= Lefts(ByTargets(a, b))
  {
  }

  lemma {:induction false} NumberTells(head: string, i: nat, j: nat, tail: string)
    requires (head + NatText(i)) + tail == (head + NatText(j)) + tail
    ensures i == j
  {
    var one, other := (head + NatText(i)) + tail, (head + NatText(j)) + tail;
    assert |NatText(i)| == |NatText(j)|;
    assert one[|head|..][..|NatText(i)|] == NatText(i) && other[|head|..][..|NatText(j)|] == NatText(j);
    NatTextValue(i);
    NatTextValue(j);
  }

  lemma CallOrderNoteTells(i: nat, j: nat)
    ensures CallOrderNote(i) == CallOrderNote(j) <==> i == j
  {
    if CallOrderNote(i) == CallOrderNote(j) {
      NumberTells(CALL_ORDER_HEAD, i + 1, j + 1, CALL_ORDER_TAIL);
    }
  }

  lemma PairedLater(pairs: Pairs, all: Pairs, i: nat, j: nat)
    requires OneToOne(all) && pairs <= all && (i, j) in all && i !in Lefts(pairs)
    ensures j !in Lefts(Swap(pairs))
  {
    forall p | p in pairs ensures p.1 != j {
      assert p in all;
    }
  }

  /** A pair made by call order: its note says "pass N of each" with A's number, and the comparison made the other way
      round says it with B's.  They agree exactly when the numbers do. */
  lemma CallOrderNoteIsRight(a: Keys, b: Keys, i: nat, j: nat)
    requires (i, j) in Aligned(a, b) && i !in Lefts(ByTargets(a, b))
    ensures i < |a.paths| && j < |b.paths|
    ensures Evidence(a, b, i) == CallOrderNote(i) && Evidence(b, a, j) == CallOrderNote(j)
    ensures Evidence(a, b, i) == Evidence(b, a, j) <==> i == j
  {
    AlignedIsOneToOne(a, b);
    LeftsGrow(a, b);
    LeftsGrow(b, a);
    StagesAreSymmetric(a, b);
    PairedLater(ByTargets(a, b), Aligned(a, b), i, j);
    CallOrderNoteTells(i, j);
  }

  /** Of two passes in no marker and of one kind, one at least is matched. */
  lemma UnmarkedMeet(a: Keys, b: Keys, i: nat, j: nat)
    requires i < |a.paths| && j < |b.paths| && a.paths[i] == b.paths[j] == "" && a.kinds[i] == b.kinds[j]
    ensures i in Lefts(Aligned(a, b)) || j in Rights(Aligned(a, b))
  {
    if i !in Lefts(Aligned(a, b)) && j !in Rights(Aligned(a, b)) {
      AlignedIsMaximal(a, b, i, j);
    }
  }

  lemma OnlyPair(pairs: Pairs)
    requires InRange(pairs, 2, 1) && (0, 0) !in pairs && (1 in Lefts(pairs) || 0 in Rights(pairs))
    ensures (1, 0) in pairs
  {
    var p :| p in pairs;
  }

  /** A marked pass and an unmarked dispatch against that dispatch alone: "pass 2 of each", of a side with one pass. */
  lemma CallOrderNoteMisleads()
    ensures var a, b := SideKeys(["P", ""], ["P", ""], ["", ""], ["graphics", "compute"]), SideKeys([""], [""], [""], ["compute"]);
            (1, 0) in Aligned(a, b) && 1 !in Lefts(ByTargets(a, b)) && Evidence(a, b, 1) == CallOrderNote(1) != CallOrderNote(0)
  {
    var a: Keys := SideKeys(["P", ""], ["P", ""], ["", ""], ["graphics", "compute"]);
    var b: Keys := SideKeys([""], [""], [""], ["compute"]);
    AlignedIsOneToOne(a, b);
    var ka, kb := CallKeys(a.paths, a.kinds), CallKeys(b.paths, b.kinds);
    assert ByPath(a, b) == {} && ByLeaf(a, b) == {} && ByTargets(a, b) == {};
    assert ka[0] == "" != kb[0];
    assert (0, 0) !in Aligned(a, b);
    UnmarkedMeet(a, b, 1, 0);
    OnlyPair(Aligned(a, b));
    CallOrderNoteIsRight(a, b, 1, 0);
    CallOrderNoteTells(1, 0);
  }

  /** The row of pass `i` of A: its partner's when it has one, else it was removed. */
  ghost predicate RowOfA(pairs: Pairs, path: string, evidence: string, i: nat, row: AbRow) {
    && row.a == Some(i) && row.path == PathOr(path, i, "A")
    && match row.b
       case Some(j) => (i, j) in pairs && row.status == "same" && row.note == JoinNotes(evidence, MovedNote(i, j))
       case None => i !in Lefts(pairs) && row.status == "removed" && row.note == ""
  }

  function RowOfB(path: string, j: nat): AbRow {
    AbRow(PathOr(path, j, "B"), "added", None, Some(j), "")
  }

  ghost function UntakenCount(pairs: Pairs, n: nat): nat {
    if n == 0 then 0 else UntakenCount(pairs, n - 1) + if n - 1 in Rights(pairs) then 0 else 1
  }

  /** The passes below `n` that no pair holds on its right, in order. */
  ghost function Untaken(pairs: Pairs, n: nat): (rest: seq<nat>)
    ensures |rest| == UntakenCount(pairs, n)
    ensures forall t | 0 <= t < |rest| :: rest[t] < n && rest[t] !in Rights(pairs)
    ensures forall t, u | 0 <= t < u < |rest| :: rest[t] < rest[u]
    ensures forall j | 0 <= j < n && j !in Rights(pairs) :: j in rest
  {
    if n == 0 then []
    else if n - 1 in Rights(pairs) then Untaken(pairs, n - 1)
    else Untaken(pairs, n - 1) + [n - 1]
  }

  /** Every pass of A once and in order, then every unmatched pass of B once and in order. */
  ghost predicate AlignmentRows(a: Keys, b: Keys, rows: seq<AbRow>) {
    var pairs := Aligned(a, b);
    var added := Untaken(pairs, |b.paths|);
    && |rows| == |a.paths| + |added|
    && (forall i | 0 <= i < |a.paths| :: RowOfA(pairs, a.paths[i], Evidence(a, b, i), i, rows[i]))
    && rows[|a.paths|..] == AddedOf(b.paths, added)
  }

  /** The rows of the listed passes of B. */
  function AddedOf(paths: seq<string>, list: seq<nat>): (rows: seq<AbRow>)
    requires forall t | 0 <= t < |list| :: list[t] < |paths|
    ensures |rows| == |list|
    ensures forall t | 0 <= t < |rows| :: rows[t] == RowOfB(paths[list[t]], list[t])
  {
    seq(|list|, t requires 0 <= t < |list| => RowOfB(paths[list[t]], list[t]))
  }

  lemma AddedNext(paths: seq<string>, list: seq<nat>, j: nat)
    requires j < |paths| && forall t | 0 <= t < |list| :: list[t] < |paths|
    ensures AddedOf(paths, list + [j]) == AddedOf(paths, list) + [RowOfB(paths[j], j)]
  {
  }

  lemma UntakenNext(paths: seq<string>, pairs: Pairs, j: nat)
    requires j < |paths|
    ensures j in Rights(pairs) ==> AddedOf(paths, Untaken(pairs, j + 1)) == AddedOf(paths, Untaken(pairs, j))
    ensures j !in Rights(pairs) ==>
              AddedOf(paths, Untaken(pairs, j + 1)) == AddedOf(paths, Untaken(pairs, j)) + [RowOfB(paths[j], j)]
  {
    if j !in Rights(pairs) {
      AddedNext(paths, Untaken(pairs, j), j);
    }
  }

  /** The rows of the unmatched passes of B below `n`. */
  ghost function AddedBelow(paths: seq<string>, pairs: Pairs, n: nat): seq<AbRow>
    requires n <= |paths|
  {
    if n == 0 then []
    else if n - 1 in Rights(pairs) then AddedBelow(paths, pairs, n - 1)
    else AddedBelow(paths, pairs, n - 1) + [RowOfB(paths[n - 1], n - 1)]
  }

  lemma NothingBelow(paths: seq<string>, pairs: Pairs)
    ensures AddedBelow(paths, pairs, 0) == AddedOf(paths, Untaken(pairs, 0))
  {
  }

  lemma BelowNext(paths: seq<string>, pairs: Pairs, j: nat)
    requires j < |paths| && AddedBelow(paths, pairs, j) == AddedOf(paths, Untaken(pairs, j))
    ensures AddedBelow(paths, pairs, j + 1) == AddedOf(paths, Untaken(pairs, j + 1))
  {
    UntakenNext(paths, pairs, j);
  }

  lemma {:induction false} AddedIsBelow(paths: seq<string>, pairs: Pairs, n: nat)
    requires n <= |paths|
    ensures AddedBelow(paths, pairs, n) == AddedOf(paths, Untaken(pairs, n))
  {
    if n == 0 {
      NothingBelow(paths, pairs);
    } else {
      AddedIsBelow(paths, pairs, n - 1);
      BelowNext(paths, pairs, n - 1);
    }
  }

  /** The four rules, one after the other, and the tables they leave. */
  method RunRules(a: Keys, b: Keys) returns (paired: map<nat, nat>, how: map<nat, string>, taken: seq<bool>)
    ensures how.Keys == paired.Keys == Lefts(Aligned(a, b))
    ensures forall i | i in paired :: (i, paired[i]) in Aligned(a, b)
    ensures forall i | i in how :: i < |a.paths| && how[i] == Evidence(a, b, i)
    ensures |taken| == |b.paths| && forall j | 0 <= j < |taken| :: taken[j] <==> j in Rights(Aligned(a, b))
  {
    var aligner := new Aligner(|a.paths|, |b.paths|);
    aligner.Match(a.paths, b.paths, PathRule);
    aligner.MatchedSides();
    ghost var byPath := aligner.how;
    assert byPath.Keys == Lefts(ByPath(a, b));
    aligner.Match(a.leaves, b.leaves, LeafRule);
    aligner.MatchedSides();
    ghost var byLeaf := aligner.how;
    assert byLeaf.Keys == Lefts(ByLeaf(a, b));
    aligner.Match(a.targets, b.targets, TargetRule);
    aligner.MatchedSides();
    ghost var byTargets := aligner.how;
    assert byTargets.Keys == Lefts(ByTargets(a, b));
    aligner.CallOrder(a.paths, a.kinds, b.paths, b.kinds);
    aligner.MatchedSides();
    assert aligner.Matched() == Aligned(a, b);
    EvidenceOfStages(a, b, byPath, byLeaf, byTargets, aligner.how);
    return aligner.paired, aligner.how, aligner.taken;
  }

  lemma EvidenceOfStages(a: Keys, b: Keys, byPath: map<nat, string>, byLeaf: map<nat, string>,
                         byTargets: map<nat, string>, last: map<nat, string>)
    requires byPath.Keys == Lefts(ByPath(a, b)) && forall i | i in byPath :: byPath[i] == ""
    requires byLeaf.Keys == Lefts(ByLeaf(a, b))
    requires forall i | i in byLeaf ::
               i < |a.paths| && byLeaf[i] == if i in byPath then byPath[i] else NoteOf(LeafRule, a.leaves[i])
    requires byTargets.Keys == Lefts(ByTargets(a, b))
    requires forall i | i in byTargets ::
               i < |a.paths| && byTargets[i] == if i in byLeaf then byLeaf[i] else NoteOf(TargetRule, a.targets[i])
    requires forall i | i in last :: i < |a.paths|
    requires forall i | i in last ::
               last[i] == if i in byTargets then byTargets[i] else CallOrderNote(i)
    ensures forall i | i in last :: last[i] == Evidence(a, b, i)
  {
    LeftsGrow(a, b);
    forall i | i in last
      ensures last[i] == Evidence(a, b, i)
    {
      assert i in byLeaf ==> i in byTargets;
      assert i in byPath ==> i in byLeaf;
    }
  }

  /** One row per pass of A. */
  method PairedRows(paths: seq<string>, paired: map<nat, nat>, how: map<nat, string>, ghost pairs: Pairs)
    returns (rows: seq<AbRow>)
    requires how.Keys == paired.Keys == Lefts(pairs) && forall i | i in paired :: (i, paired[i]) in pairs
    ensures |rows| == |paths|
    ensures forall i | 0 <= i < |rows| :: RowOfA(pairs, paths[i], if i in how then how[i] else "", i, rows[i])
  {
    rows := [];
    for index := 0 to |paths|
      invariant |rows| == index && RowsSoFar(paths, how, pairs, rows)
    {
      var row := RowFor(paths[index], index, paired, how, pairs);
      RowsGrow(paths, how, pairs, rows, row);
      rows := rows + [row];
    }
  }

  ghost predicate RowsSoFar(paths: seq<string>, how: map<nat, string>, pairs: Pairs, rows: seq<AbRow>)
    requires |rows| <= |paths|
  {
    forall i | 0 <= i < |rows| :: RowOfA(pairs, paths[i], if i in how then how[i] else "", i, rows[i])
  }

  lemma RowsGrow(paths: seq<string>, how: map<nat, string>, pairs: Pairs, rows: seq<AbRow>, row: AbRow)
    requires |rows| < |paths| && RowsSoFar(paths, how, pairs, rows)
    requires RowOfA(pairs, paths[|rows|], if |rows| in how then how[|rows|] else "", |rows|, row)
    ensures RowsSoFar(paths, how, pairs, rows + [row])
  {
  }

  /** The row of one pass of A. */
  method RowFor(path: string, index: nat, paired: map<nat, nat>, how: map<nat, string>, ghost pairs: Pairs)
    returns (row: AbRow)
    requires how.Keys == paired.Keys == Lefts(pairs) && forall i | i in paired :: (i, paired[i]) in pairs
    ensures RowOfA(pairs, path, if index in how then how[index] else "", index, row)
  {
    if index !in paired {
      return AbRow(PathOr(path, index, "A"), "removed", Some(index), None, "");
    }
    var other := paired[index];
    row := AbRow(PathOr(path, index, "A"), "same", Some(index), Some(other), JoinNotes(how[index], MovedNote(index, other)));
  }

  /** One row per pass of B that no rule took. */
  method AddedRows(paths: seq<string>, taken: seq<bool>, ghost pairs: Pairs) returns (rows: seq<AbRow>)
    requires |taken| == |paths| && forall j | 0 <= j < |taken| :: taken[j] <==> j in Rights(pairs)
    ensures rows == AddedOf(paths, Untaken(pairs, |paths|))
  {
    rows := [];
    for index := 0 to |paths|
      invariant rows == AddedBelow(paths, pairs, index)
    {
      if !taken[index] {
        rows := rows + [RowOfB(paths[index], index)];
      }
    }
    AddedIsBelow(paths, pairs, |paths|);
  }

  method AlignKeys(a: Keys, b: Keys) returns (rows: seq<AbRow>)
    ensures AlignmentRows(a, b, rows)
  {
    var paired, how, taken := RunRules(a, b);
    var same := PairedRows(a.paths, paired, how, Aligned(a, b));
    var added := AddedRows(b.paths, taken, Aligned(a, b));
    rows := same + added;
  }

  method Align(a: Side, b: Side) returns (rows: seq<AbRow>)
    ensures AlignmentRows(SideKeysOf(a), SideKeysOf(b), rows)
  {
    var pathsA := PassMarkers(a);
    var pathsB := PassMarkers(b);
    rows := AlignKeys(KeysOf(a, pathsA), KeysOf(b, pathsB));
  }

  ghost function PairsBelow(pairs: Pairs, n: nat): Pairs {
    set p | p in pairs && p.1 < n
  }

  lemma OneMorePair(pairs: Pairs, n: nat)
    requires OneToOne(pairs)
    ensures |PairsBelow(pairs, n + 1)| == |PairsBelow(pairs, n)| + if n in Rights(pairs) then 1 else 0
  {
    var less, more := PairsBelow(pairs, n), PairsBelow(pairs, n + 1);
    if n in Rights(pairs) {
      var p :| p in pairs && p.1 == n;
      assert p !in less && more == less + {p};
    } else {
      assert more == less;
    }
  }

  lemma {:induction false} UntakenSize(pairs: Pairs, n: nat)
    requires OneToOne(pairs)
    ensures UntakenCount(pairs, n) + |PairsBelow(pairs, n)| == n
  {
    if n == 0 {
      NoneBelow(pairs);
    } else {
      UntakenSize(pairs, n - 1);
      OneMorePair(pairs, n - 1);
    }
  }

  lemma NoneBelow(pairs: Pairs)
    ensures |PairsBelow(pairs, 0)| == 0
  {
    assert PairsBelow(pairs, 0) == {};
  }

  /** A pair costs one row instead of two, and nothing is dropped or listed twice. */
  lemma RowCount(a: Keys, b: Keys, rows: seq<AbRow>)
    requires AlignmentRows(a, b, rows)
    ensures |rows| + |Aligned(a, b)| == |a.paths| + |b.paths|
  {
    AlignedIsOneToOne(a, b);
    UntakenSize(Aligned(a, b), |b.paths|);
    assert Aligned(a, b) == PairsBelow(Aligned(a, b), |b.paths|);
  }

  /** Aligned with itself, a side has one "same" row per pass and no pass that moved. */
  lemma SelfRows(a: Keys, rows: seq<AbRow>)
    requires AlignmentRows(a, a, rows)
    ensures |rows| == |a.paths|
    ensures forall i | 0 <= i < |rows| :: rows[i].status == "same" && rows[i].a == rows[i].b == Some(i)
    ensures forall i | 0 <= i < |rows| :: rows[i].note == Evidence(a, a, i)
  {
    AlignedWithItself(a);
    RowCount(a, a, rows);
    DiagonalSize(|a.paths|);
    forall i: nat | i < |rows|
      ensures rows[i].status == "same" && rows[i].b == Some(i) && rows[i].note == Evidence(a, a, i)
    {
      assert RowOfA(Diagonal(|a.paths|), a.paths[i], Evidence(a, a, i), i, rows[i]);
      assert (i, i) in Diagonal(|a.paths|);
    }
  }

  lemma {:induction false} DiagonalSize(n: nat)
    ensures |Diagonal(n)| == n
  {
    if n > 0 {
      DiagonalSize(n - 1);
      assert Diagonal(n) == Diagonal(n - 1) + {(n - 1, n - 1)};
    }
  }
}
