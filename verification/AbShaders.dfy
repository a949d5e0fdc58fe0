/** The shader stages of an aligned pass pair, by identity and by reflection (src/py/rdc_ab.py). */
module AbShaders {
  import opened Basics
  import opened Sorting
  import opened Decimal
  import opened AbPair

  type Stages = map<string, Entry>

  datatype ShaderRow = ShaderRow(stage: string, verdict: string, aHash: string, bHash: string, changes: seq<Change>)

  const SCALAR_FIELDS := ["entry", "encoding", "bytes"]
  const ROW_FIELDS := ["constantBlocks", "readOnlyResources", "readWriteResources", "inputSignature", "outputSignature"]

  function StagesAt(a: Bundle, eid: int): Stages {
    if eid in a.stages then a.stages[eid] else map[]
  }

  function TextOf(entry: Entry, field: string): string {
    if field !in entry then ""
    else match entry[field]
         case Text(text) => text
         case Number(n) => IntText(n)
         case Rows(rows) => "[" + Join(", ", rows) + "]"
  }

  function RowsOf(entry: Entry, field: string): seq<string> {
    if field in entry && entry[field].Rows? then entry[field].rows else []
  }

  // ------------------------------------------------------------------ one stage that both sides bind

  function TextsOf(entry: Entry, fields: seq<string>): (texts: seq<string>)
    ensures |texts| == |fields|
  {
    seq(|fields|, i requires 0 <= i < |fields| => TextOf(entry, fields[i]))
  }

  /** The rows of one list that the other does not have, each with what is on the other side. */
  function Gone(field: string, left: seq<string>, right: seq<string>): seq<Change> {
    if left == [] then []
    else (if left[0] in right then [] else [Change(field, left[0], NOT_PRESENT)]) + Gone(field, left[1..], right)
  }

  function New(field: string, left: seq<string>, right: seq<string>): seq<Change> {
    if right == [] then []
    else (if right[0] in left then [] else [Change(field, NOT_PRESENT, right[0])]) + New(field, left, right[1..])
  }

  /** List by list, the rows gone and then the rows new. */
  function RowChanges(fields: seq<string>, one: Entry, other: Entry): seq<Change> {
    if fields == [] then []
    else
      var left, right := RowsOf(one, fields[0]), RowsOf(other, fields[0]);
      (Gone(fields[0], left, right) + New(fields[0], left, right)) + RowChanges(fields[1..], one, other)
  }

  function StageChanges(one: Entry, other: Entry): seq<Change> {
    Differing(SCALAR_FIELDS, TextsOf(one, SCALAR_FIELDS), TextsOf(other, SCALAR_FIELDS)) + RowChanges(ROW_FIELDS, one, other)
  }

  function HashVerdict(hashA: string, hashB: string): string {
    if hashA != "" && hashB != "" then if hashA == hashB then "same" else "different" else "no-hash-in-this-bundle"
  }

  function StageRowOf(left: Stages, right: Stages, stage: string): ShaderRow {
    if stage in left && stage in right then
      var one, other := left[stage], right[stage];
      ShaderRow(stage, HashVerdict(TextOf(one, "hash"), TextOf(other, "hash")), TextOf(one, "hash"), TextOf(other, "hash"),
                StageChanges(one, other))
    else
      // A one-sided stage is labelled by whether A's entry holds anything.
      ShaderRow(stage, if stage in left && left[stage] != map[] then "only-in-a" else "only-in-b", "", "", [])
  }

  // ------------------------------------------------------------------ the loops

  method CompareScalars(fields: seq<string>, one: Entry, other: Entry) returns (changes: seq<Change>)
    ensures changes == Differing(fields, TextsOf(one, fields), TextsOf(other, fields))
  {
    ghost var left, right := TextsOf(one, fields), TextsOf(other, fields);
    changes := [];
    for i: nat := 0 to |fields|
      invariant changes + Differing(fields[i..], left[i..], right[i..]) == Differing(fields, left, right)
    {
      DifferingNext(changes, fields, left, right, i);
      var a, b := TextOf(one, fields[i]), TextOf(other, fields[i]);
      if a != b {
        changes := changes + [Change(fields[i], a, b)];
      }
    }
    assert changes + [] == changes;
  }

  lemma DifferingNext(changes: seq<Change>, fields: seq<string>, left: seq<string>, right: seq<string>, i: nat)
    requires |fields| == |left| == |right| && i < |fields|
    ensures changes + Differing(fields[i..], left[i..], right[i..])
            == (if left[i] != right[i] then changes + [Change(fields[i], left[i], right[i])] else changes)
               + Differing(fields[i + 1..], left[i + 1..], right[i + 1..])
  {
    DifferingFrom(fields, left, right, i);
    Assoc(changes, if left[i] != right[i] then [Change(fields[i], left[i], right[i])] else [],
          Differing(fields[i + 1..], left[i + 1..], right[i + 1..]));
  }

  lemma DifferingFrom(fields: seq<string>, left: seq<string>, right: seq<string>, i: nat)
    requires |fields| == |left| == |right| && i < |fields|
    ensures Differing(fields[i..], left[i..], right[i..])
            == (if left[i] != right[i] then [Change(fields[i], left[i], right[i])] else [])
               + Differing(fields[i + 1..], left[i + 1..], right[i + 1..])
  {
    assert fields[i..][1..] == fields[i + 1..] && left[i..][1..] == left[i + 1..] && right[i..][1..] == right[i + 1..];
  }

  method AddGone(changes: seq<Change>, field: string, left: seq<string>, right: seq<string>) returns (more: seq<Change>)
    ensures more == changes + Gone(field, left, right)
  {
    more := changes;
    for i: nat := 0 to |left|
      invariant more + Gone(field, left[i..], right) == changes + Gone(field, left, right)
    {
      assert left[i..][0] == left[i] && left[i..][1..] == left[i + 1..];
      Assoc(more, if left[i] in right then [] else [Change(field, left[i], NOT_PRESENT)], Gone(field, left[i + 1..], right));
      if left[i] !in right {
        more := more + [Change(field, left[i], NOT_PRESENT)];
      }
    }
    assert more + [] == more;
  }

  method AddNew(changes: seq<Change>, field: string, left: seq<string>, right: seq<string>) returns (more: seq<Change>)
    ensures more == changes + New(field, left, right)
  {
    more := changes;
    for i: nat := 0 to |right|
      invariant more + New(field, left, right[i..]) == changes + New(field, left, right)
    {
      assert right[i..][0] == right[i] && right[i..][1..] == right[i + 1..];
      Assoc(more, if right[i] in left then [] else [Change(field, NOT_PRESENT, right[i])], New(field, left, right[i + 1..]));
      if right[i] !in left {
        more := more + [Change(field, NOT_PRESENT, right[i])];
      }
    }
    assert more + [] == more;
  }

  method CompareStage(one: Entry, other: Entry) returns (changes: seq<Change>)
    ensures changes == StageChanges(one, other)
  {
    changes := CompareScalars(SCALAR_FIELDS, one, other);
    ghost var scalars := changes;
    var fields := ROW_FIELDS;
    for i: nat := 0 to |fields|
      invariant changes + RowChanges(fields[i..], one, other) == scalars + RowChanges(fields, one, other)
    {
      var left, right := RowsOf(one, fields[i]), RowsOf(other, fields[i]);
      RowChangesFrom(changes, fields, one, other, i);
      changes := AddGone(changes, fields[i], left, right);
      changes := AddNew(changes, fields[i], left, right);
    }
    assert changes + [] == changes;
  }

  lemma RowChangesFrom(changes: seq<Change>, fields: seq<string>, one: Entry, other: Entry, i: nat)
    requires i < |fields|
    ensures var left, right := RowsOf(one, fields[i]), RowsOf(other, fields[i]);
            ((changes + Gone(fields[i], left, right)) + New(fields[i], left, right)) + RowChanges(fields[i + 1..], one, other)
            == changes + RowChanges(fields[i..], one, other)
  {
    var left, right := RowsOf(one, fields[i]), RowsOf(other, fields[i]);
    assert fields[i..][0] == fields[i] && fields[i..][1..] == fields[i + 1..];
    Assoc(changes, Gone(fields[i], left, right), New(fields[i], left, right));
    Assoc(changes, Gone(fields[i], left, right) + New(fields[i], left, right), RowChanges(fields[i + 1..], one, other));
  }

  ghost function StageNames(left: Stages, right: Stages): (names: seq<string>)
    ensures Strict(StringLess, names) && forall s :: s in names <==> s in left || s in right
  {
    StringsOrder();
    Sorted(StringLess, left.Keys + right.Keys)
  }

  function RowsOver(left: Stages, right: Stages, names: seq<string>): seq<ShaderRow> {
    seq(|names|, i requires 0 <= i < |names| => StageRowOf(left, right, names[i]))
  }

  /** One row for every stage either side binds, by name. */
  ghost function ShaderRows(left: Stages, right: Stages): seq<ShaderRow> {
    RowsOver(left, right, StageNames(left, right))
  }

  lemma RowsAppend(left: Stages, right: Stages, names: seq<string>, name: string)
    ensures RowsOver(left, right, names + [name]) == RowsOver(left, right, names) + [StageRowOf(left, right, name)]
  {
  }

  method CompareOne(left: Stages, right: Stages, stage: string) returns (row: ShaderRow)
    ensures row == StageRowOf(left, right, stage)
  {
    if stage !in left || stage !in right {
      return ShaderRow(stage, if stage in left && left[stage] != map[] then "only-in-a" else "only-in-b", "", "", []);
    }
    var changes := CompareStage(left[stage], right[stage]);
    var hashA, hashB := TextOf(left[stage], "hash"), TextOf(right[stage], "hash");
    row := ShaderRow(stage, HashVerdict(hashA, hashB), hashA, hashB, changes);
  }

  method CompareShaders(a: Bundle, b: Bundle, first: int, other: int) returns (rows: seq<ShaderRow>)
    ensures rows == ShaderRows(StagesAt(a, first), StagesAt(b, other))
  {
    var left, right := StagesAt(a, first), StagesAt(b, other);
    StringsOrder();
    var names := SortedList(StringLess, left.Keys + right.Keys);
    rows := [];
    for i: nat := 0 to |names|
      invariant rows == RowsOver(left, right, names[..i])
    {
      TakeNext(names, i);
      RowsAppend(left, right, names[..i], names[i]);
      var row := CompareOne(left, right, names[i]);
      rows := rows + [row];
    }
    assert names[..|names|] == names;
  }

  // ------------------------------------------------------------------ nothing is missed

  lemma {:induction false} GoneIsExact(field: string, left: seq<string>, right: seq<string>)
    ensures forall c :: c in Gone(field, left, right)
              <==> exists s :: s in left && s !in right && c == Change(field, s, NOT_PRESENT)
  {
    if left != [] {
      GoneIsExact(field, left[1..], right);
      assert left == [left[0]] + left[1..];
    }
  }

  lemma {:induction false} NewIsExact(field: string, left: seq<string>, right: seq<string>)
    ensures forall c :: c in New(field, left, right)
              <==> exists s :: s in right && s !in left && c == Change(field, NOT_PRESENT, s)
  {
    if right != [] {
      NewIsExact(field, left, right[1..]);
      assert right == [right[0]] + right[1..];
    }
  }

  /** One row of one list that one of the two entries lacks. */
  ghost predicate RowDiffers(one: Entry, other: Entry, f: string, c: Change) {
    (exists s :: s in RowsOf(one, f) && s !in RowsOf(other, f) && c == Change(f, s, NOT_PRESENT))
    || exists s :: s in RowsOf(other, f) && s !in RowsOf(one, f) && c == Change(f, NOT_PRESENT, s)
  }

  lemma {:induction false} RowChangesAreExact(fields: seq<string>, one: Entry, other: Entry)
    ensures forall c :: c in RowChanges(fields, one, other) <==> exists f :: f in fields && RowDiffers(one, other, f, c)
  {
    if fields != [] {
      var f := fields[0];
      RowChangesAreExact(fields[1..], one, other);
      GoneIsExact(f, RowsOf(one, f), RowsOf(other, f));
      NewIsExact(f, RowsOf(one, f), RowsOf(other, f));
      assert fields == [f] + fields[1..];
      forall c ensures c in RowChanges(fields, one, other) <==> RowDiffers(one, other, f, c) || c in RowChanges(fields[1..], one, other) {
      }
    }
  }

  /** A stage's changes are exactly its differing scalar fields and the rows of its five lists that one side lacks. */
  lemma StageChangesAreExact(one: Entry, other: Entry)
    ensures forall c :: c in StageChanges(one, other)
              <==> (exists i :: 0 <= i < |SCALAR_FIELDS| && TextOf(one, SCALAR_FIELDS[i]) != TextOf(other, SCALAR_FIELDS[i])
                                && c == Change(SCALAR_FIELDS[i], TextOf(one, SCALAR_FIELDS[i]), TextOf(other, SCALAR_FIELDS[i])))
                   || exists f :: f in ROW_FIELDS && RowDiffers(one, other, f, c)
  {
    DifferingIsExact(SCALAR_FIELDS, TextsOf(one, SCALAR_FIELDS), TextsOf(other, SCALAR_FIELDS));
    RowChangesAreExact(ROW_FIELDS, one, other);
  }

  // ------------------------------------------------------------------ the other way round

  lemma {:induction false} GoneMirrors(field: string, left: seq<string>, right: seq<string>)
    ensures New(field, right, left) == Mirror(Gone(field, left, right))
  {
    if left != [] {
      GoneMirrors(field, left[1..], right);
      MirrorConcat(if left[0] in right then [] else [Change(field, left[0], NOT_PRESENT)], Gone(field, left[1..], right));
    }
  }

  lemma {:induction false} NewMirrors(field: string, left: seq<string>, right: seq<string>)
    ensures Gone(field, right, left) == Mirror(New(field, left, right))
  {
    if right != [] {
      NewMirrors(field, left, right[1..]);
      MirrorConcat(if right[0] in left then [] else [Change(field, NOT_PRESENT, right[0])], New(field, left, right[1..]));
    }
  }

  /** The same rows are reported, list by list, but those gone come before those new. */
  lemma {:induction false} RowChangesMirror(fields: seq<string>, one: Entry, other: Entry)
    ensures multiset(RowChanges(fields, other, one)) == multiset(Mirror(RowChanges(fields, one, other)))
  {
    if fields != [] {
      var f, left, right := fields[0], RowsOf(one, fields[0]), RowsOf(other, fields[0]);
      var gone, added, more := Gone(f, left, right), New(f, left, right), RowChanges(fields[1..], one, other);
      RowChangesMirror(fields[1..], one, other);
      GoneMirrors(f, left, right);
      NewMirrors(f, left, right);
      MirrorConcat(gone, added);
      MirrorConcat(gone + added, more);
      assert RowChanges(fields, other, one) == (Mirror(added) + Mirror(gone)) + RowChanges(fields[1..], other, one);
    }
  }

  lemma StageChangesMirror(one: Entry, other: Entry)
    ensures multiset(StageChanges(other, one)) == multiset(Mirror(StageChanges(one, other)))
  {
    var scalars := Differing(SCALAR_FIELDS, TextsOf(one, SCALAR_FIELDS), TextsOf(other, SCALAR_FIELDS));
    DifferingMirrors(SCALAR_FIELDS, TextsOf(one, SCALAR_FIELDS), TextsOf(other, SCALAR_FIELDS));
    RowChangesMirror(ROW_FIELDS, one, other);
    MirrorConcat(scalars, RowChanges(ROW_FIELDS, one, other));
  }

  /** The sides of a stage's row exchanged. */
  predicate ShaderSwaps(forth: ShaderRow, back: ShaderRow) {
    && back.stage == forth.stage && back.aHash == forth.bHash && back.bHash == forth.aHash
    && back.verdict == OtherSide(forth.verdict)
    && multiset(back.changes) == multiset(Mirror(forth.changes))
  }

  /** Bound on both sides, or on one and with something in its entry. */
  predicate Labelled(left: Stages, right: Stages, stage: string) {
    (stage in left && stage in right) || (stage in left && left[stage] != map[]) || (stage in right && right[stage] != map[])
  }

  /** A stage's row the other way round is its row with the sides exchanged, exactly unless it is bound on one side
      only and its entry there is an empty object: then both rows say `only-in-b`, right or wrong. */
  lemma StageRowSwaps(left: Stages, right: Stages, stage: string)
    requires stage in left || stage in right
    ensures ShaderSwaps(StageRowOf(left, right, stage), StageRowOf(right, left, stage)) <==> Labelled(left, right, stage)
    ensures !Labelled(left, right, stage) ==>
              StageRowOf(left, right, stage).verdict == StageRowOf(right, left, stage).verdict == "only-in-b"
    ensures !(stage in left && stage in right) && Labelled(left, right, stage) ==>
              StageRowOf(left, right, stage).verdict == if stage in left then "only-in-a" else "only-in-b"
  {
    assert "only-in-a"[8] != "only-in-b"[8];
    if stage in left && stage in right {
      StageChangesMirror(left[stage], right[stage]);
      VerdictHasNoSide(TextOf(left[stage], "hash"), TextOf(right[stage], "hash"));
    }
  }

  /** An input: A alone has a stage, an object without any member, and the row says that only B has it. */
  lemma EmptyStageMisleads()
    ensures !Labelled(map["" := map[]], map[], "") && StageRowOf(map["" := map[]], map[], "").verdict == "only-in-b"
  {
    StageRowSwaps(map["" := map[]], map[], "");
  }

  lemma VerdictHasNoSide(hashA: string, hashB: string)
    ensures HashVerdict(hashA, hashB) == HashVerdict(hashB, hashA) == OtherSide(HashVerdict(hashA, hashB))
  {
    assert "only-in-a"[0] == "only-in-b"[0] == 'o' && "same"[0] == 's' && "different"[0] == 'd';
    assert "no-hash-in-this-bundle"[0] == 'n';
  }

  lemma DifferentBothWays(left: Stages, right: Stages, stage: string)
    requires stage in left || stage in right
    ensures StageRowOf(right, left, stage).verdict == "different" <==> StageRowOf(left, right, stage).verdict == "different"
  {
    StageRowSwaps(left, right, stage);
    assert "only-in-a"[0] == "only-in-b"[0] == 'o' && "different"[0] == 'd';
  }

  /** The rows of one stage: exchanged exactly when the stage is labelled, and different in both or in neither. */
  predicate StageSwaps(left: Stages, right: Stages, forth: ShaderRow, back: ShaderRow) {
    && back.stage == forth.stage && (ShaderSwaps(forth, back) <==> Labelled(left, right, forth.stage))
    && (back.verdict == "different" <==> forth.verdict == "different")
  }

  lemma StageRowsOf(left: Stages, right: Stages, stage: string)
    requires stage in left || stage in right
    ensures StageSwaps(left, right, StageRowOf(left, right, stage), StageRowOf(right, left, stage))
  {
    StageRowSwaps(left, right, stage);
    DifferentBothWays(left, right, stage);
  }

  /** The stages of one pair in both documents. */
  predicate StagesSwap(left: Stages, right: Stages, forth: seq<ShaderRow>, back: seq<ShaderRow>) {
    && |back| == |forth|
    && forall i | 0 <= i < |forth| :: StageSwaps(left, right, forth[i], back[i])
  }

  lemma RowsSwap(left: Stages, right: Stages)
    ensures StagesSwap(left, right, ShaderRows(left, right), ShaderRows(right, left))
  {
    assert left.Keys + right.Keys == right.Keys + left.Keys;
    var names := StageNames(left, right);
    forall i | 0 <= i < |names| ensures StageSwaps(left, right, ShaderRows(left, right)[i], ShaderRows(right, left)[i]) {
      assert names[i] in names;
      StageRowsOf(left, right, names[i]);
    }
  }

  // ------------------------------------------------------------------ a pass against itself

  lemma {:induction false} NothingGone(field: string, left: seq<string>, right: seq<string>)
    requires forall i | 0 <= i < |left| :: left[i] in right
    ensures Gone(field, left, right) == []
  {
    if left != [] {
      NothingGone(field, left[1..], right);
    }
  }

  lemma {:induction false} NoRowChanges(fields: seq<string>, entry: Entry)
    ensures RowChanges(fields, entry, entry) == []
  {
    if fields != [] {
      var rows := RowsOf(entry, fields[0]);
      NothingGone(fields[0], rows, rows);
      GoneMirrors(fields[0], rows, rows);
      NoRowChanges(fields[1..], entry);
    }
  }

  lemma SelfStage(entry: Entry)
    ensures StageChanges(entry, entry) == []
  {
    DifferingMirrors(SCALAR_FIELDS, TextsOf(entry, SCALAR_FIELDS), TextsOf(entry, SCALAR_FIELDS));
    NoRowChanges(ROW_FIELDS, entry);
  }

  /** Stages compared with themselves are none of them different. */
  lemma SelfShaders(stages: Stages)
    ensures forall i | 0 <= i < |ShaderRows(stages, stages)| ::
              ShaderRows(stages, stages)[i].verdict in ["same", "no-hash-in-this-bundle"]
              && ShaderRows(stages, stages)[i].changes == []
  {
    var names := StageNames(stages, stages);
    forall i | 0 <= i < |names|
      ensures ShaderRows(stages, stages)[i].verdict in ["same", "no-hash-in-this-bundle"]
      ensures ShaderRows(stages, stages)[i].changes == []
    {
      assert names[i] in names;
      SelfStage(stages[names[i]]);
    }
  }
}
