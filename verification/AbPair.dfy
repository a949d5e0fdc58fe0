/**
 What the A/B comparison says of one aligned pass pair in its own fields, its state rows and its costs
 (src/py/rdc_ab.py).
 */
module AbPair {
  import opened Basics
  import opened Alignment
  import opened Decimal

  // ------------------------------------------------------------------ what a bundle answers

  datatype StateDoc = StateDoc(rootParameters: seq<string>, shaders: seq<string>, renderTargets: seq<string>,
                               depth: string)

  datatype Value = Text(text: string) | Number(n: int) | Rows(rows: seq<string>)

  /** One stage of a reflection document: its members by name. */
  type Entry = map<string, Value>

  /** One constant-buffer document: its file and its member rows. */
  datatype Block = Block(file: string, members: map<string, string>)

  /** The path of a file that a directory listing gave. */
  type FilePath = s: string | s != "" witness "."

  datatype Readback = Readback(eid: int, slot: nat, path: FilePath)

  datatype Bundle = Bundle(side: Side, states: map<int, StateDoc>, stages: map<int, map<string, Entry>>,
                           blocks: map<int, map<(string, nat), Block>>, costs: seq<(int, real)>,
                           readbacks: seq<Readback>)

  /** What stands for a row that the other side does not have. */
  const NOT_PRESENT := "(not present)"

  /** The verdict of the comparison made the other way round. */
  function OtherSide(verdict: string): string {
    if verdict == "only-in-a" then "only-in-b" else if verdict == "only-in-b" then "only-in-a" else verdict
  }

  // ------------------------------------------------------------------ annotation

  /** Every `res<id>` whose resource has a name gains `[name]`. */
  function Annotate(text: string, names: map<string, string>): string {
    if text == "" then ""
    else if "res" <= text && DigitRun(text[3..]) > 0 then
      var token := text[..3 + DigitRun(text[3..])];
      token + (if token in names then "[" + names[token] + "]" else "") + Annotate(text[|token|..], names)
    else [text[0]] + Annotate(text[1..], names)
  }

  predicate ResAt(text: string, i: nat) {
    i + 3 <= |text| && text[i] == 'r' && text[i + 1] == 'e' && text[i + 2] == 's'
  }

  /** At `i` stands the id of a resource that has a name. */
  predicate NamedAt(text: string, i: nat, names: map<string, string>) {
    ResAt(text, i) && var n := DigitRun(text[i + 3..]); n > 0 && text[i..i + 3 + n] in names
  }

  lemma ResStarts(text: string)
    ensures "res" <= text <==> ResAt(text, 0)
  {
    assert |text| >= 3 ==> text[..3] == [text[0], text[1], text[2]];
  }

  lemma NamedShift(text: string, k: nat, i: nat, names: map<string, string>)
    requires k <= i && k <= |text|
    ensures NamedAt(text, i, names) <==> NamedAt(text[k..], i - k, names)
  {
    if ResAt(text, i) {
      assert text[k..][i - k + 3..] == text[i + 3..];
      var n := DigitRun(text[i + 3..]);
      assert text[k..][i - k..i - k + 3 + n] == text[i..i + 3 + n];
    }
  }

  /** Annotation leaves a text as it is exactly when no named resource is mentioned in it: one that carries
      its name already gains it once more. */
  lemma {:induction false} AnnotateChanges(text: string, names: map<string, string>)
    ensures |Annotate(text, names)| >= |text|
    ensures Annotate(text, names) == text <==> forall i: nat | i < |text| :: !NamedAt(text, i, names)
  {
    if text != "" {
      ResStarts(text);
      var n := if ResAt(text, 0) then DigitRun(text[3..]) else 0;
      var k := if n > 0 then 3 + n else 1;
      AnnotateChanges(text[k..], names);
      NamedBehind(text, k, names);
      if n > 0 {
        AnnotatedToken(text, k, names);
      } else {
        AnnotatedChar(text, names);
      }
    }
  }

  lemma AnnotatedChar(text: string, names: map<string, string>)
    requires text != "" && !(ResAt(text, 0) && DigitRun(text[3..]) > 0)
    ensures Annotate(text, names) == [text[0]] + Annotate(text[1..], names)
    ensures Annotate(text, names) == text <==> Annotate(text[1..], names) == text[1..]
  {
    ResStarts(text);
    TailDecides([text[0]], Annotate(text[1..], names), text[1..]);
    assert text == [text[0]] + text[1..];
  }

  /** So a row that carries its name is not returned as it was. */
  lemma AnnotatesAgain()
    ensures Annotate("res7[A]", map["res7" := "A"]) != "res7[A]"
  {
    var text, names := "res7[A]", map["res7" := "A"];
    AnnotateChanges(text, names);
    assert text[3..] == ['7'] + "[A]" && !IsDigit("[A]"[0]);
    assert DigitRun("[A]") == 0 && (['7'] + "[A]")[1..] == "[A]";
    assert DigitRun(text[3..]) == 1 && text[0..4] == "res7";
    assert NamedAt(text, 0, names);
  }

  /** No id starts inside the piece that the scan takes off the front. */
  lemma NamedBehind(text: string, k: nat, names: map<string, string>)
    requires 0 < k <= |text| && (k == 1 || (ResAt(text, 0) && k == 3 + DigitRun(text[3..])))
    ensures (forall i: nat | i < |text| :: !NamedAt(text, i, names))
            <==> !NamedAt(text, 0, names) && forall i: nat | i < |text| - k :: !NamedAt(text[k..], i, names)
  {
    forall i: nat | 0 < i < k ensures !ResAt(text, i) {
      if i >= 3 {
        assert text[3..][..DigitRun(text[3..])][i - 3] == text[i];
      }
    }
    forall i: nat | k <= i < |text| ensures NamedAt(text, i, names) <==> NamedAt(text[k..], i - k, names) {
      NamedShift(text, k, i, names);
    }
    forall i: nat | i < |text| - k ensures NamedAt(text, i + k, names) <==> NamedAt(text[k..], i, names) {
      NamedShift(text, k, i + k, names);
    }
  }

  lemma AnnotatedToken(text: string, k: nat, names: map<string, string>)
    requires ResAt(text, 0) && DigitRun(text[3..]) > 0 && k == 3 + DigitRun(text[3..])
    requires |Annotate(text[k..], names)| >= |text[k..]|
    ensures |Annotate(text, names)| >= |text|
    ensures Annotate(text, names) == text <==> !NamedAt(text, 0, names) && Annotate(text[k..], names) == text[k..]
  {
    ResStarts(text);
    var token, rest := text[..k], Annotate(text[k..], names);
    assert text == token + text[k..] && text[0..k] == token;
    if token in names {
      assert |Annotate(text, names)| == k + |names[token]| + 2 + |rest|;
    } else {
      assert token + "" == token;
      assert Annotate(text, names) == token + rest;
      TailDecides(token, rest, text[k..]);
    }
  }

  lemma TailDecides(head: string, tail: string, other: string)
    ensures head + tail == head + other <==> tail == other
  {
    if head + tail == head + other {
      assert tail == (head + tail)[|head|..] && other == (head + other)[|head|..];
    }
  }

  function AnnotateId(text: string, names: map<string, string>): string {
    var token := Strip(text);
    Annotate(if token != "" && AllDigits(token) && token != "0" then "res" + token else text, names)
  }

  function AnnotateAll(rows: seq<string>, names: map<string, string>): seq<string> {
    seq(|rows|, i requires 0 <= i < |rows| => Annotate(rows[i], names))
  }

  // ------------------------------------------------------------------ one pass pair, field by field

  datatype Change = Change(field: string, a: string, b: string)

  /** The fields two lists of texts disagree about; `right` is read in step with `left`. */
  function Differing(fields: seq<string>, left: seq<string>, right: seq<string>): seq<Change>
    requires |fields| == |left| == |right|
  {
    if fields == [] then []
    else (if left[0] != right[0] then [Change(fields[0], left[0], right[0])] else [])
         + Differing(fields[1..], left[1..], right[1..])
  }

  function TargetsText(p: Pass, names: map<string, string>): string {
    var text := Annotate(Join(", ", p.targets), names);
    if text == "" then "none" else text
  }

  const PASS_FIELDS := ["kind", "structure", "events", "graphics", "compute", "depth", "targets"]

  function PassTexts(p: Pass, names: map<string, string>): (texts: seq<string>)
    ensures |texts| == |PASS_FIELDS|
  {
    [p.kind, p.structure, IntText(p.events), IntText(p.graphics), IntText(p.compute), AnnotateId(p.depth, names),
     TargetsText(p, names)]
  }

  function StructureChanges(p: Pass, q: Pass, namesA: map<string, string>, namesB: map<string, string>): seq<Change> {
    Differing(PASS_FIELDS, PassTexts(p, namesA), PassTexts(q, namesB))
  }

  /** The rows of `left` that `right` does not have, in order, labelled with their kind. */
  function Missing(kind: string, left: seq<string>, right: seq<string>): seq<string> {
    if left == [] then []
    else (if left[0] in right then [] else [kind + ": " + left[0]]) + Missing(kind, left[1..], right)
  }

  datatype StateKind = RootParameters | Shaders | RenderTargets

  const STATE_KINDS := [RootParameters, Shaders, RenderTargets]

  function KindText(kind: StateKind): string {
    match kind case RootParameters => "rootParameters" case Shaders => "shaders" case RenderTargets => "renderTargets"
  }

  function StateRows(a: Bundle, eid: int, kind: StateKind): seq<string> {
    if eid !in a.states then []
    else
      var doc := a.states[eid];
      AnnotateAll(match kind case RootParameters => doc.rootParameters case Shaders => doc.shaders
                             case RenderTargets => doc.renderTargets, a.side.names)
  }

  function DepthRow(a: Bundle, eid: int): string {
    if eid in a.states then "depth " + AnnotateId(a.states[eid].depth, a.side.names) else ""
  }

  /** The state rows of the first side that the second does not have, kind by kind. */
  function StateMissing(kinds: seq<StateKind>, a: Bundle, eidA: int, b: Bundle, eidB: int): seq<string> {
    if kinds == [] then []
    else Missing(KindText(kinds[0]), StateRows(a, eidA, kinds[0]), StateRows(b, eidB, kinds[0]))
         + StateMissing(kinds[1..], a, eidA, b, eidB)
  }

  predicate DepthDiffers(a: Bundle, eidA: int, b: Bundle, eidB: int) {
    DepthRow(a, eidA) != "" && DepthRow(b, eidB) != "" && DepthRow(a, eidA) != DepthRow(b, eidB)
  }

  function StateRemoved(a: Bundle, eidA: int, b: Bundle, eidB: int): seq<string> {
    StateMissing(STATE_KINDS, a, eidA, b, eidB) + if DepthDiffers(a, eidA, b, eidB) then [DepthRow(a, eidA)] else []
  }

  function StateAdded(a: Bundle, eidA: int, b: Bundle, eidB: int): seq<string> {
    StateMissing(STATE_KINDS, b, eidB, a, eidA) + if DepthDiffers(a, eidA, b, eidB) then [DepthRow(b, eidB)] else []
  }

  // ------------------------------------------------------------------ costs

  datatype Counters = Counters(costA: real, costB: real, rowsA: nat, rowsB: nat, percent: real, verdict: string)

  function CostRows(costs: seq<(int, real)>, first: int, last: int): (nat, real) {
    if costs == [] then (0, 0.0)
    else
      var n := |costs| - 1;
      var (count, sum) := CostRows(costs[..n], first, last);
      if first <= costs[n].0 <= last then (count + 1, sum + costs[n].1) else (count, sum)
  }

  function CompareCosts(rowsA: nat, costA: real, rowsB: nat, costB: real): Counters {
    if rowsA == 0 || rowsB == 0 then Counters(costA, costB, rowsA, rowsB, 0.0, "not compared")
    else Counters(costA, costB, rowsA, rowsB, if costA != 0.0 then (costB - costA) / costA * 100.0 else 0.0,
                  if costB < costA then "cheaper" else if costB > costA then "dearer" else "same")
  }

  function CompareCounters(a: Bundle, b: Bundle, p: Pass, q: Pass): Counters {
    var (rowsA, costA) := CostRows(a.costs, p.firstEid, p.lastEid);
    var (rowsB, costB) := CostRows(b.costs, q.firstEid, q.lastEid);
    CompareCosts(rowsA, costA, rowsB, costB)
  }

  // ------------------------------------------------------------------ nothing is missed

  /** Every field whose texts differ is reported with both of them, and no other field is. */
  lemma {:induction false} DifferingIsExact(fields: seq<string>, left: seq<string>, right: seq<string>)
    requires |fields| == |left| == |right|
    ensures forall c :: c in Differing(fields, left, right)
              <==> exists i :: 0 <= i < |fields| && left[i] != right[i] && c == Change(fields[i], left[i], right[i])
    ensures Differing(fields, left, right) == [] <==> left == right
  {
    if fields != [] {
      DifferingIsExact(fields[1..], left[1..], right[1..]);
      var rest := Differing(fields[1..], left[1..], right[1..]);
      forall c ensures c in Differing(fields, left, right)
                       <==> exists i :: 0 <= i < |fields| && left[i] != right[i] && c == Change(fields[i], left[i], right[i]) {
        if c in rest {
          var i :| 0 <= i < |fields| - 1 && left[1..][i] != right[1..][i] && c == Change(fields[1..][i], left[1..][i], right[1..][i]);
          assert left[i + 1] != right[i + 1] && c == Change(fields[i + 1], left[i + 1], right[i + 1]);
        }
        if i :| 0 <= i < |fields| && left[i] != right[i] && c == Change(fields[i], left[i], right[i]) {
          assert i > 0 ==> left[1..][i - 1] == left[i] && right[1..][i - 1] == right[i] && fields[1..][i - 1] == fields[i];
        }
      }
      assert left == [left[0]] + left[1..] && right == [right[0]] + right[1..];
    }
  }

  /** The rows reported gone are exactly those of the first list that the second does not have. */
  lemma {:induction false} MissingIsExact(kind: string, left: seq<string>, right: seq<string>)
    ensures forall s :: s in Missing(kind, left, right)
              <==> exists i :: 0 <= i < |left| && left[i] !in right && s == kind + ": " + left[i]
  {
    if left != [] {
      MissingIsExact(kind, left[1..], right);
      var rest := Missing(kind, left[1..], right);
      forall s ensures s in Missing(kind, left, right)
                       <==> exists i :: 0 <= i < |left| && left[i] !in right && s == kind + ": " + left[i] {
        if s in rest {
          var i :| 0 <= i < |left| - 1 && left[1..][i] !in right && s == kind + ": " + left[1..][i];
          assert left[i + 1] !in right && s == kind + ": " + left[i + 1];
        }
        if i :| 0 <= i < |left| && left[i] !in right && s == kind + ": " + left[i] {
          assert i > 0 ==> left[1..][i - 1] == left[i];
        }
      }
    }
  }

  /** A state row of one kind that only A has, as it is reported. */
  ghost predicate OnlyInA(a: Bundle, eidA: int, b: Bundle, eidB: int, kind: StateKind, s: string) {
    exists i :: 0 <= i < |StateRows(a, eidA, kind)| && StateRows(a, eidA, kind)[i] !in StateRows(b, eidB, kind)
                && s == KindText(kind) + ": " + StateRows(a, eidA, kind)[i]
  }

  lemma {:induction false} StateMissingIsExact(kinds: seq<StateKind>, a: Bundle, eidA: int, b: Bundle, eidB: int)
    ensures forall s :: s in StateMissing(kinds, a, eidA, b, eidB)
              <==> exists kind :: kind in kinds && OnlyInA(a, eidA, b, eidB, kind, s)
  {
    if kinds != [] {
      StateMissingIsExact(kinds[1..], a, eidA, b, eidB);
      MissingIsExact(KindText(kinds[0]), StateRows(a, eidA, kinds[0]), StateRows(b, eidB, kinds[0]));
      assert kinds == [kinds[0]] + kinds[1..];
      forall s
        ensures s in StateMissing(kinds, a, eidA, b, eidB)
                <==> OnlyInA(a, eidA, b, eidB, kinds[0], s) || s in StateMissing(kinds[1..], a, eidA, b, eidB)
      {
      }
    }
  }

  /** What a document calls removed is exactly what only A's state has, kind by kind, and a depth target that changed. */
  lemma StateRemovedIsExact(a: Bundle, eidA: int, b: Bundle, eidB: int)
    ensures forall s :: s in StateRemoved(a, eidA, b, eidB)
              <==> (exists kind :: kind in STATE_KINDS && OnlyInA(a, eidA, b, eidB, kind, s))
                   || (DepthDiffers(a, eidA, b, eidB) && s == DepthRow(a, eidA))
  {
    StateMissingIsExact(STATE_KINDS, a, eidA, b, eidB);
  }

  predicate HasRows(a: Bundle, eid: int) {
    exists kind :: kind in STATE_KINDS && StateRows(a, eid, kind) != []
  }

  /** That one side has no state document is no difference, the comments say; it is reported as one exactly when the
      other side has a document with rows in it, and then every row of that side is. */
  lemma MissingDocument(a: Bundle, eidA: int, b: Bundle, eidB: int)
    requires eidA !in a.states || eidB !in b.states
    ensures StateRemoved(a, eidA, b, eidB) == [] <==> !HasRows(a, eidA)
    ensures StateAdded(a, eidA, b, eidB) == [] <==> !HasRows(b, eidB)
    ensures forall kind, i | kind in STATE_KINDS && 0 <= i < |StateRows(a, eidA, kind)| ::
              KindText(kind) + ": " + StateRows(a, eidA, kind)[i] in StateRemoved(a, eidA, b, eidB)
    ensures forall kind, i | kind in STATE_KINDS && 0 <= i < |StateRows(b, eidB, kind)| ::
              KindText(kind) + ": " + StateRows(b, eidB, kind)[i] in StateAdded(a, eidA, b, eidB)
  {
    NoDepthRow(a, eidA, b, eidB);
    OneSideReported(a, eidA, b, eidB);
    OneSideReported(b, eidB, a, eidA);
  }

  lemma NoDepthRow(a: Bundle, eidA: int, b: Bundle, eidB: int)
    requires eidA !in a.states || eidB !in b.states
    ensures StateRemoved(a, eidA, b, eidB) == StateMissing(STATE_KINDS, a, eidA, b, eidB)
    ensures StateAdded(a, eidA, b, eidB) == StateMissing(STATE_KINDS, b, eidB, a, eidA)
  {
    assert !DepthDiffers(a, eidA, b, eidB);
  }

  lemma OneSideReported(a: Bundle, eidA: int, b: Bundle, eidB: int)
    requires eidA !in a.states || eidB !in b.states
    ensures var rows := StateMissing(STATE_KINDS, a, eidA, b, eidB);
            (rows == [] <==> !HasRows(a, eidA))
            && forall kind, i | kind in STATE_KINDS && 0 <= i < |StateRows(a, eidA, kind)| ::
                 KindText(kind) + ": " + StateRows(a, eidA, kind)[i] in rows
  {
    var rows := StateMissing(STATE_KINDS, a, eidA, b, eidB);
    forall kind, i | kind in STATE_KINDS && 0 <= i < |StateRows(a, eidA, kind)|
      ensures KindText(kind) + ": " + StateRows(a, eidA, kind)[i] in rows
    {
      RowReported(a, eidA, b, eidB, kind, i);
    }
    if rows != [] {
      RowsThere(a, eidA, b, eidB);
    }
    if HasRows(a, eidA) {
      var kind :| kind in STATE_KINDS && StateRows(a, eidA, kind) != [];
      RowReported(a, eidA, b, eidB, kind, 0);
    }
  }

  lemma RowReported(a: Bundle, eidA: int, b: Bundle, eidB: int, kind: StateKind, i: nat)
    requires eidA !in a.states || eidB !in b.states
    requires kind in STATE_KINDS && i < |StateRows(a, eidA, kind)|
    ensures KindText(kind) + ": " + StateRows(a, eidA, kind)[i] in StateMissing(STATE_KINDS, a, eidA, b, eidB)
  {
    var row := KindText(kind) + ": " + StateRows(a, eidA, kind)[i];
    RowIsAlone(a, eidA, b, eidB, kind, i, row);
    AloneIsMissing(a, eidA, b, eidB, kind, row);
  }

  lemma RowIsAlone(a: Bundle, eidA: int, b: Bundle, eidB: int, kind: StateKind, i: nat, row: string)
    requires eidA !in a.states || eidB !in b.states
    requires i < |StateRows(a, eidA, kind)| && row == KindText(kind) + ": " + StateRows(a, eidA, kind)[i]
    ensures OnlyInA(a, eidA, b, eidB, kind, row)
  {
    NoRows(a, eidA, kind);
    NoRows(b, eidB, kind);
  }

  lemma AloneIsMissing(a: Bundle, eidA: int, b: Bundle, eidB: int, kind: StateKind, row: string)
    requires kind in STATE_KINDS && OnlyInA(a, eidA, b, eidB, kind, row)
    ensures row in StateMissing(STATE_KINDS, a, eidA, b, eidB)
  {
    StateMissingIsExact(STATE_KINDS, a, eidA, b, eidB);
  }

  lemma NoRows(a: Bundle, eid: int, kind: StateKind)
    ensures eid !in a.states ==> StateRows(a, eid, kind) == []
  {
  }

  lemma RowsThere(a: Bundle, eidA: int, b: Bundle, eidB: int)
    requires StateMissing(STATE_KINDS, a, eidA, b, eidB) != []
    ensures HasRows(a, eidA)
  {
    var row := StateMissing(STATE_KINDS, a, eidA, b, eidB)[0];
    StateMissingIsExact(STATE_KINDS, a, eidA, b, eidB);
    assert row in StateMissing(STATE_KINDS, a, eidA, b, eidB);
    var kind :| kind in STATE_KINDS && OnlyInA(a, eidA, b, eidB, kind, row);
    assert StateRows(a, eidA, kind) != [];
  }

  /** An input: B's bundle was written for no event, and A's one shader is reported removed. */
  lemma MissingDocumentMisleads(a: Bundle, b: Bundle)
    requires a.states == map[1 := StateDoc([], ["vs"], [], "0")] && b.states == map[] && a.side.names == map[]
    ensures StateRemoved(a, 1, b, 1) != []
  {
    assert |StateRows(a, 1, Shaders)| == 1;
    assert Shaders in STATE_KINDS by {
      assert STATE_KINDS[1] == Shaders;
    }
    MissingDocument(a, 1, b, 1);
  }

  // ------------------------------------------------------------------ the pair the other way round

  function Mirror(changes: seq<Change>): seq<Change> {
    seq(|changes|, i requires 0 <= i < |changes| => Change(changes[i].field, changes[i].b, changes[i].a))
  }

  lemma MirrorConcat(xs: seq<Change>, ys: seq<Change>)
    ensures Mirror(xs + ys) == Mirror(xs) + Mirror(ys)
  {
  }

  lemma MirrorOne(c: Change)
    ensures Mirror([c]) == [Change(c.field, c.b, c.a)]
  {
  }

  lemma {:induction false} DifferingMirrors(fields: seq<string>, left: seq<string>, right: seq<string>)
    requires |fields| == |left| == |right|
    ensures Differing(fields, right, left) == Mirror(Differing(fields, left, right))
    ensures left == right ==> Differing(fields, left, right) == []
  {
    if fields != [] {
      DifferingMirrors(fields[1..], left[1..], right[1..]);
      if left[0] != right[0] {
        MirrorConcat([Change(fields[0], left[0], right[0])], Differing(fields[1..], left[1..], right[1..]));
        MirrorOne(Change(fields[0], left[0], right[0]));
      }
    }
  }

  function OtherVerdict(verdict: string): string {
    if verdict == "cheaper" then "dearer" else if verdict == "dearer" then "cheaper" else verdict
  }

  /** A verdict about the cost needs rows on both sides, and then it is the sign of the difference. */
  lemma CounterVerdicts(a: Bundle, b: Bundle, p: Pass, q: Pass)
    ensures var c := CompareCounters(a, b, p, q);
            (c.verdict == "not compared" <==> c.rowsA == 0 || c.rowsB == 0)
            && (c.verdict == "cheaper" <==> c.rowsA > 0 && c.rowsB > 0 && c.costB < c.costA)
            && (c.verdict == "dearer" <==> c.rowsA > 0 && c.rowsB > 0 && c.costB > c.costA)
            && (c.verdict == "same" <==> c.rowsA > 0 && c.rowsB > 0 && c.costA == c.costB)
  {
  }

  /** The percentage is exact: applied to A's cost it gives B's, and for a positive cost its sign is the verdict. */
  lemma PercentTellsCost(a: Bundle, b: Bundle, p: Pass, q: Pass)
    ensures var c := CompareCounters(a, b, p, q);
            c.verdict != "not compared" && c.costA != 0.0 ==>
              c.costA * (1.0 + c.percent / 100.0) == c.costB
              && (c.costA > 0.0 ==> (c.verdict == "dearer" <==> c.percent > 0.0)
                                    && (c.verdict == "cheaper" <==> c.percent < 0.0))
  {
    var c := CompareCounters(a, b, p, q);
    CounterVerdicts(a, b, p, q);
    if c.verdict != "not compared" && c.costA != 0.0 {
      Quotient(c.costB - c.costA, c.costA);
    }
  }

  lemma Quotient(x: real, w: real)
    requires w != 0.0
    ensures x / w * w == x && w * (1.0 + x / w * 100.0 / 100.0) == w + x
    ensures w > 0.0 ==> (x / w * 100.0 > 0.0 <==> x > 0.0) && (x / w * 100.0 < 0.0 <==> x < 0.0)
  {
    var r := x / w;
    assert r * w == x && r * 100.0 / 100.0 == r;
    assert w * (1.0 + r) == w + r * w;
  }

  /** The costs exchanged: the verdict turns over, and the two percentages undo each other. */
  predicate CostsSwap(forth: Counters, back: Counters) {
    && back.costA == forth.costB && back.rowsA == forth.rowsB && back.costB == forth.costA && back.rowsB == forth.rowsA
    && back.verdict == OtherVerdict(forth.verdict)
    && (forth.verdict != "not compared" && forth.costA != 0.0 && forth.costB != 0.0 ==>
          (1.0 + forth.percent / 100.0) * (1.0 + back.percent / 100.0) == 1.0)
  }

  lemma CountersSwap(a: Bundle, b: Bundle, p: Pass, q: Pass)
    ensures CostsSwap(CompareCounters(a, b, p, q), CompareCounters(b, a, q, p))
  {
    var forth, back := CompareCounters(a, b, p, q), CompareCounters(b, a, q, p);
    if forth.verdict != "not compared" && forth.costA != 0.0 && forth.costB != 0.0 {
      PercentTellsCost(a, b, p, q);
      PercentTellsCost(b, a, q, p);
      Undoes(forth.costA, forth.costB, 1.0 + forth.percent / 100.0, 1.0 + back.percent / 100.0);
    }
  }

  lemma Undoes(x: real, y: real, u: real, v: real)
    requires x != 0.0 && x * u == y && y * v == x
    ensures u * v == 1.0
  {
    assert x * (u * v) == x;
  }

  // ------------------------------------------------------------------ a pass against itself

  lemma {:induction false} NothingMissing(kind: string, left: seq<string>, right: seq<string>)
    requires forall i | 0 <= i < |left| :: left[i] in right
    ensures Missing(kind, left, right) == []
  {
    if left != [] {
      NothingMissing(kind, left[1..], right);
    }
  }

  lemma {:induction false} NoStateMissing(kinds: seq<StateKind>, a: Bundle, eid: int)
    ensures StateMissing(kinds, a, eid, a, eid) == []
  {
    if kinds != [] {
      NothingMissing(KindText(kinds[0]), StateRows(a, eid, kinds[0]), StateRows(a, eid, kinds[0]));
      NoStateMissing(kinds[1..], a, eid);
    }
  }

  lemma SelfCounters(a: Bundle, p: Pass)
    ensures CompareCounters(a, a, p, p).verdict in ["same", "not compared"]
  {
  }
}
