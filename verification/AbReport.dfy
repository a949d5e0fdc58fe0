/** What a comparison document says of a pass pair, in terms of what the two bundles hold (src/py/rdc_ab.py). */
module AbReport {
  import opened Basics
  import opened Decimal
  import opened Sorting
  import opened Alignment
  import opened AlignmentKeys
  import opened AbPair
  import opened AbConstants
  import opened AbShaders
  import opened AbImages
  import opened AbDocument

  // ------------------------------------------------------------------ annotation, piece by piece

  lemma {:induction false} RunStays(x: string, y: string)
    requires y == "" || !IsDigit(y[0])
    ensures DigitRun(x + y) == DigitRun(x)
  {
    if x == "" {
      assert x + y == y;
    } else {
      assert (x + y)[1..] == x[1..] + y;
      RunStays(x[1..], y);
    }
  }

  /** No id runs from the first text into the second. */
  predicate CleanCut(y: string) {
    y == "" || !(y[0] == 'e' || y[0] == 's' || IsDigit(y[0]))
  }

  lemma ResWithin(x: string, y: string)
    requires x != "" && CleanCut(y)
    ensures "res" <= x + y <==> "res" <= x
    ensures "res" <= x ==> (x + y)[3..] == x[3..] + y && DigitRun((x + y)[3..]) == DigitRun(x[3..])
  {
    ResStarts(x + y);
    ResStarts(x);
    assert |x| < 3 && |x + y| > |x| ==> (x + y)[|x|] == y[0];
    if "res" <= x {
      assert (x + y)[3..] == x[3..] + y;
      RunStays(x[3..], y);
    }
  }

  lemma CutWithin(x: string, y: string, k: nat)
    requires k <= |x|
    ensures (x + y)[..k] == x[..k] && (x + y)[k..] == x[k..] + y
  {
  }

  /** Annotation goes piece by piece: no piece sees what stands in another. */
  lemma {:induction false} AnnotateConcat(x: string, y: string, names: map<string, string>)
    requires CleanCut(y)
    ensures Annotate(x + y, names) == Annotate(x, names) + Annotate(y, names)
    decreases |x|
  {
    if x == "" {
      assert x + y == y;
    } else {
      ResWithin(x, y);
      if "res" <= x && DigitRun(x[3..]) > 0 {
        var k := 3 + DigitRun(x[3..]);
        CutWithin(x, y, k);
        AnnotateConcat(x[k..], y, names);
        TokenFirst(x, k, names);
        TokenFirst(x + y, k, names);
        Assoc(Named(x[..k], names), Annotate(x[k..], names), Annotate(y, names));
      } else {
        CutWithin(x, y, 1);
        AnnotateConcat(x[1..], y, names);
        Assoc([x[0]], Annotate(x[1..], names), Annotate(y, names));
      }
    }
  }

  /** An id with the name behind it that it has. */
  function Named(token: string, names: map<string, string>): string {
    if token in names then token + ("[" + names[token] + "]") else token
  }

  lemma TokenFirst(text: string, k: nat, names: map<string, string>)
    requires "res" <= text && DigitRun(text[3..]) > 0 && k == 3 + DigitRun(text[3..])
    ensures Annotate(text, names) == Named(text[..k], names) + Annotate(text[k..], names)
  {
    assert text[..k] + "" == text[..k];
  }

  /** An id gains its name in brackets, when it has one. */
  lemma AnnotateToken(digits: string, names: map<string, string>)
    requires digits != "" && AllDigits(digits)
    ensures var token := "res" + digits;
            Annotate(token, names) == if token in names then token + ("[" + names[token] + "]") else token
  {
    var token := "res" + digits;
    assert token[3..] == digits;
    DigitRunOf(digits, "");
    assert digits + "" == digits;
    TokenFirst(token, |token|, names);
    assert token[..|token|] == token && token[|token|..] == "";
    assert Annotate("", names) == "" && Named(token, names) + "" == Named(token, names);
  }

  /** An id in the middle of a text gains its name there, and what is around it is annotated by itself. */
  lemma AnnotateInside(before: string, digits: string, after: string, names: map<string, string>)
    requires digits != "" && AllDigits(digits) && (after == "" || !IsDigit(after[0]))
    requires CleanCut(after)
    ensures var token := "res" + digits;
            Annotate(before + (token + after), names)
            == Annotate(before, names)
               + ((if token in names then token + ("[" + names[token] + "]") else token) + Annotate(after, names))
  {
    var token := "res" + digits;
    AnnotateConcat(before, token + after, names);
    AnnotateConcat(token, after, names);
    AnnotateToken(digits, names);
  }

  /** A depth target is a bare number, annotated as the resource of that id; 0 is none and stays 0. */
  lemma DepthIsAnId(n: nat, front: string, back: string, names: map<string, string>)
    requires Blanks(front) && Blanks(back) && n > 0
    ensures AnnotateId(front + (NatText(n) + back), names) == Annotate("res" + NatText(n), names)
  {
    StripIs(front, NatText(n), back);
    NatTextValue(n);
    ZeroText();
  }

  lemma ZeroText()
    ensures NatValue("0") == 0
  {
    assert "0"[..0] == "";
  }

  lemma ZeroStays(names: map<string, string>)
    ensures AnnotateId("0", names) == "0"
  {
    StripIs("", "0", "");
    assert "" + ("0" + "") == "0";
    assert "0"[1..] == "" && !("res" <= "0") && Annotate("", names) == "" && ['0'] + "" == "0";
  }

  /** The targets of a pass in words: none, or one row after the other, each annotated by itself. */
  lemma TargetsTexts(p: Pass, names: map<string, string>, one: string, other: string)
    requires one != "" && CleanCut(other)
    ensures p.targets == [] ==> TargetsText(p, names) == "none"
    ensures p.targets == [one] ==> TargetsText(p, names) == Annotate(one, names)
    ensures p.targets == [one, other] ==> TargetsText(p, names) == Annotate(one, names) + (", " + Annotate(other, names))
  {
    AnnotateChanges(one, names);
    if p.targets == [one, other] {
      TwoRows(one, other, names);
    } else if p.targets == [] {
      assert Annotate("", names) == "";
    }
  }

  lemma TwoRows(one: string, other: string, names: map<string, string>)
    requires CleanCut(other)
    ensures Annotate(Join(", ", [one, other]), names) == Annotate(one, names) + (", " + Annotate(other, names))
  {
    assert [one, other][1..] == [other] && Join(", ", [other]) == other;
    Assoc(one, ", ", other);
    AnnotateConcat(one, ", " + other, names);
    AnnotateConcat(", ", other, names);
    SeparatorStays(names);
  }

  lemma SeparatorStays(names: map<string, string>)
    ensures Annotate(", ", names) == ", "
  {
    forall i: nat | i < 2 ensures !NamedAt(", ", i, names) {
    }
    AnnotateChanges(", ", names);
  }

  // ------------------------------------------------------------------ fields and state rows

  /** A field is reported exactly when its texts differ, and then once in words: with both texts. */
  ghost predicate Tells(changes: seq<Change>, field: string, x: string, y: string) {
    && ((exists k :: 0 <= k < |changes| && changes[k].field == field) <==> x != y)
    && forall k | 0 <= k < |changes| && changes[k].field == field :: changes[k] == Change(field, x, y)
  }

  lemma FieldTells(fields: seq<string>, left: seq<string>, right: seq<string>, i: nat)
    requires |fields| == |left| == |right| && i < |fields|
    requires forall k, l | 0 <= k < l < |fields| :: fields[k] != fields[l]
    ensures Tells(Differing(fields, left, right), fields[i], left[i], right[i])
  {
    var changes := Differing(fields, left, right);
    DifferingIsExact(fields, left, right);
    if left[i] != right[i] {
      assert Change(fields[i], left[i], right[i]) in changes;
      var k :| 0 <= k < |changes| && changes[k] == Change(fields[i], left[i], right[i]);
      assert changes[k].field == fields[i];
    }
    forall k | 0 <= k < |changes| && changes[k].field == fields[i]
      ensures changes[k] == Change(fields[i], left[i], right[i]) && left[i] != right[i]
    {
      assert changes[k] in changes;
      var l :| 0 <= l < |fields| && left[l] != right[l] && changes[k] == Change(fields[l], left[l], right[l]);
      assert l == i;
    }
  }

  lemma FieldsDiffer()
    ensures forall k, l | 0 <= k < l < |PASS_FIELDS| :: PASS_FIELDS[k] != PASS_FIELDS[l]
  {
    assert PASS_FIELDS[0][0] == 'k' && PASS_FIELDS[1][0] == 's' && PASS_FIELDS[2][0] == 'e' && PASS_FIELDS[3][0] == 'g';
    assert PASS_FIELDS[4][0] == 'c' && PASS_FIELDS[5][0] == 'd' && PASS_FIELDS[6][0] == 't';
  }

  /** The seven fields of a pass: what kind it is, its structure, its three counts, its depth target and its targets,
      the last two annotated with the names of the own capture. */
  lemma ChangesTell(p: Pass, q: Pass, namesA: map<string, string>, namesB: map<string, string>)
    ensures var changes := StructureChanges(p, q, namesA, namesB);
            && Tells(changes, "kind", p.kind, q.kind) && Tells(changes, "structure", p.structure, q.structure)
            && Tells(changes, "events", IntText(p.events), IntText(q.events))
            && Tells(changes, "graphics", IntText(p.graphics), IntText(q.graphics))
            && Tells(changes, "compute", IntText(p.compute), IntText(q.compute))
            && Tells(changes, "depth", AnnotateId(p.depth, namesA), AnnotateId(q.depth, namesB))
            && Tells(changes, "targets", TargetsText(p, namesA), TargetsText(q, namesB))
  {
    PassFieldTells(p, q, namesA, namesB, 0, "kind");
    PassFieldTells(p, q, namesA, namesB, 1, "structure");
    PassFieldTells(p, q, namesA, namesB, 2, "events");
    PassFieldTells(p, q, namesA, namesB, 3, "graphics");
    PassFieldTells(p, q, namesA, namesB, 4, "compute");
    PassFieldTells(p, q, namesA, namesB, 5, "depth");
    PassFieldTells(p, q, namesA, namesB, 6, "targets");
  }

  lemma PassFieldTells(p: Pass, q: Pass, namesA: map<string, string>, namesB: map<string, string>, i: nat, field: string)
    requires i < |PASS_FIELDS| && PASS_FIELDS[i] == field
    ensures Tells(StructureChanges(p, q, namesA, namesB), field, PassTexts(p, namesA)[i], PassTexts(q, namesB)[i])
  {
    FieldsDiffer();
    FieldTells(PASS_FIELDS, PassTexts(p, namesA), PassTexts(q, namesB), i);
  }

  /** A row of the one list, annotated, that no row of the other list reads like. */
  ghost predicate Alone(rows: seq<string>, names: map<string, string>, others: seq<string>, otherNames: map<string, string>,
                        kind: string, s: string) {
    exists i :: 0 <= i < |rows| && s == kind + ": " + Annotate(rows[i], names)
                && forall k | 0 <= k < |others| :: Annotate(others[k], otherNames) != Annotate(rows[i], names)
  }

  function DocRows(doc: StateDoc, kind: StateKind): seq<string> {
    match kind case RootParameters => doc.rootParameters case Shaders => doc.shaders case RenderTargets => doc.renderTargets
  }

  lemma AloneIsOnlyInA(a: Bundle, eidA: int, b: Bundle, eidB: int, kind: StateKind, s: string)
    requires eidA in a.states && eidB in b.states
    ensures AbPair.OnlyInA(a, eidA, b, eidB, kind, s)
            <==> Alone(DocRows(a.states[eidA], kind), a.side.names, DocRows(b.states[eidB], kind), b.side.names, KindText(kind), s)
  {
    var rows, others := DocRows(a.states[eidA], kind), DocRows(b.states[eidB], kind);
    RowsOfKind(a, eidA, kind);
    RowsOfKind(b, eidB, kind);
    if AbPair.OnlyInA(a, eidA, b, eidB, kind, s) {
      var i :| 0 <= i < |StateRows(a, eidA, kind)| && StateRows(a, eidA, kind)[i] !in StateRows(b, eidB, kind)
        && s == KindText(kind) + ": " + StateRows(a, eidA, kind)[i];
      forall k | 0 <= k < |others| ensures Annotate(others[k], b.side.names) != Annotate(rows[i], a.side.names) {
        assert StateRows(b, eidB, kind)[k] in StateRows(b, eidB, kind);
      }
    }
    if Alone(rows, a.side.names, others, b.side.names, KindText(kind), s) {
      var i :| 0 <= i < |rows| && s == KindText(kind) + ": " + Annotate(rows[i], a.side.names)
        && forall k | 0 <= k < |others| :: Annotate(others[k], b.side.names) != Annotate(rows[i], a.side.names);
      assert StateRows(a, eidA, kind)[i] !in StateRows(b, eidB, kind);
    }
  }

  lemma RowsOfKind(a: Bundle, eid: int, kind: StateKind)
    requires eid in a.states
    ensures |StateRows(a, eid, kind)| == |DocRows(a.states[eid], kind)|
    ensures forall i | 0 <= i < |DocRows(a.states[eid], kind)| ::
              StateRows(a, eid, kind)[i] == Annotate(DocRows(a.states[eid], kind)[i], a.side.names)
  {
  }

  ghost predicate GoneFrom(d: StateDoc, names: map<string, string>, e: StateDoc, otherNames: map<string, string>, s: string) {
    || Alone(d.rootParameters, names, e.rootParameters, otherNames, "rootParameters", s)
    || Alone(d.shaders, names, e.shaders, otherNames, "shaders", s)
    || Alone(d.renderTargets, names, e.renderTargets, otherNames, "renderTargets", s)
    || (AnnotateId(d.depth, names) != AnnotateId(e.depth, otherNames) && s == "depth " + AnnotateId(d.depth, names))
  }

  lemma AllKinds(kind: StateKind)
    ensures kind in STATE_KINDS
  {
    assert STATE_KINDS[0] == RootParameters && STATE_KINDS[1] == Shaders && STATE_KINDS[2] == RenderTargets;
  }

  lemma RemovedTells(a: Bundle, eidA: int, b: Bundle, eidB: int, s: string)
    requires eidA in a.states && eidB in b.states
    ensures (exists kind :: kind in STATE_KINDS && AbPair.OnlyInA(a, eidA, b, eidB, kind, s))
            <==> Alone(a.states[eidA].rootParameters, a.side.names, b.states[eidB].rootParameters, b.side.names, "rootParameters", s)
                 || Alone(a.states[eidA].shaders, a.side.names, b.states[eidB].shaders, b.side.names, "shaders", s)
                 || Alone(a.states[eidA].renderTargets, a.side.names, b.states[eidB].renderTargets, b.side.names, "renderTargets", s)
  {
    forall kind: StateKind
      ensures kind in STATE_KINDS
      ensures AbPair.OnlyInA(a, eidA, b, eidB, kind, s)
              <==> Alone(DocRows(a.states[eidA], kind), a.side.names, DocRows(b.states[eidB], kind), b.side.names, KindText(kind), s)
    {
      AllKinds(kind);
      AloneIsOnlyInA(a, eidA, b, eidB, kind, s);
    }
    assert DocRows(a.states[eidA], RootParameters) == a.states[eidA].rootParameters;
    assert DocRows(a.states[eidA], Shaders) == a.states[eidA].shaders;
    assert DocRows(a.states[eidA], RenderTargets) == a.states[eidA].renderTargets;
  }

  lemma DepthTells(a: Bundle, eidA: int, b: Bundle, eidB: int)
    requires eidA in a.states && eidB in b.states
    ensures DepthDiffers(a, eidA, b, eidB)
            <==> AnnotateId(a.states[eidA].depth, a.side.names) != AnnotateId(b.states[eidB].depth, b.side.names)
    ensures DepthRow(a, eidA) == "depth " + AnnotateId(a.states[eidA].depth, a.side.names)
  {
    TailDecides("depth ", AnnotateId(a.states[eidA].depth, a.side.names), AnnotateId(b.states[eidB].depth, b.side.names));
  }

  /** Removed are the rows of A's document that no row of the same list of B's reads like, and A's depth target when
      the two differ. */
  lemma StateTells(a: Bundle, eidA: int, b: Bundle, eidB: int)
    requires eidA in a.states && eidB in b.states
    ensures forall s :: s in StateRemoved(a, eidA, b, eidB)
              <==> GoneFrom(a.states[eidA], a.side.names, b.states[eidB], b.side.names, s)
  {
    StateRemovedIsExact(a, eidA, b, eidB);
    DepthTells(a, eidA, b, eidB);
    forall s ensures s in StateRemoved(a, eidA, b, eidB) <==> GoneFrom(a.states[eidA], a.side.names, b.states[eidB], b.side.names, s) {
      RemovedTells(a, eidA, b, eidB, s);
    }
  }

  /** And added is what is removed the other way round. */
  lemma AddedIsRemovedBack(a: Bundle, eidA: int, b: Bundle, eidB: int)
    ensures StateAdded(a, eidA, b, eidB) == StateRemoved(b, eidB, a, eidA)
  {
  }

  // ------------------------------------------------------------------ constant blocks

  function TextOfMember(members: map<string, string>, m: string): string {
    if m in members && members[m] != "" then members[m] else "(not present)"
  }

  /** A block's row: its files, what is said of it as a whole, and its differing members with both their texts. */
  ghost predicate BlockTells(row: BlockRow, left: Blocks, right: Blocks, key: (string, nat)) {
    var one, other := if key in left then left[key] else Block("", map[]), if key in right then right[key] else Block("", map[]);
    && row.stage == key.0 && row.slot == key.1 && row.aFile == one.file && row.bFile == other.file
    && (OnlyInA in row.notes <==> one.file != "" && other.file == "")
    && (OnlyInB in row.notes <==> one.file == "" && other.file != "")
    && (AllSame in row.notes <==> one.file != "" && other.file != "" && row.values == [])
    && row.name == BlockLabel(if one.file != "" then one.file else other.file)
    && (forall v | v in row.values :: exists m :: Moved(one.members, other.members, m, v))
    && forall m, v | Moved(one.members, other.members, m, v) :: v in row.values
  }

  /** A member that differs, with its texts on both sides. */
  predicate Moved(left: map<string, string>, right: map<string, string>, m: string, v: ValueRow) {
    && (if m in left then left[m] else "") != (if m in right then right[m] else "")
    && v == ValueRow(Strip(m), TextOfMember(left, m), TextOfMember(right, m))
  }

  lemma MovedIsValue(left: map<string, string>, right: map<string, string>, m: string, v: ValueRow)
    ensures Moved(left, right, m, v) <==> MemberRow(left, m) != MemberRow(right, m) && v == ValueOf(left, right, m)
  {
  }

  lemma ValuesMoved(left: map<string, string>, right: map<string, string>, v: ValueRow)
    requires v in BlockValues(left, right)
    ensures exists m :: Moved(left, right, m, v)
  {
    var names, values := ChangedMembers(left, right), BlockValues(left, right);
    ValuesAreExact(left, right);
    var i :| 0 <= i < |values| && values[i] == v;
    assert names[i] in names;
    MovedIsValue(left, right, names[i], v);
  }

  lemma ValuesTell(left: map<string, string>, right: map<string, string>)
    ensures forall v | v in BlockValues(left, right) :: exists m :: Moved(left, right, m, v)
    ensures forall m, v | Moved(left, right, m, v) :: v in BlockValues(left, right)
  {
    forall v | v in BlockValues(left, right) ensures exists m :: Moved(left, right, m, v) {
      ValuesMoved(left, right, v);
    }
    forall m, v | Moved(left, right, m, v) ensures v in BlockValues(left, right) {
      MovedIsValue(left, right, m, v);
      MembersReported(left, right);
    }
  }

  lemma BlocksTell(left: Blocks, right: Blocks, key: (string, nat))
    requires key in left || key in right
    ensures BlockTells(BlockRowOf(left, right, key), left, right, key)
  {
    ValuesTell(MembersOf(left, key), MembersOf(right, key));
  }

  // ------------------------------------------------------------------ shader stages

  /** The hash an entry carries, as text; "" for none. */
  predicate Hashed(entry: Entry, hash: string) {
    if "hash" !in entry then hash == ""
    else match entry["hash"] case Text(text) => hash == text case Number(n) => hash == IntText(n) case Rows(rows) => false
  }

  /** A stage that both sides bind: the verdict goes by the two hashes alone. A difference is never called same, and a
      missing hash proves nothing. */
  lemma VerdictTells(left: Stages, right: Stages, stage: string, hashA: string, hashB: string)
    requires stage in left && stage in right && Hashed(left[stage], hashA) && Hashed(right[stage], hashB)
    ensures var row := StageRowOf(left, right, stage);
            && row.stage == stage && row.aHash == hashA && row.bHash == hashB
            && (row.verdict == "same" <==> hashA != "" && hashB != "" && hashA == hashB)
            && (row.verdict == "different" <==> hashA != "" && hashB != "" && hashA != hashB)
            && (row.verdict == "no-hash-in-this-bundle" <==> hashA == "" || hashB == "")
  {
    assert "same"[0] == 's' && "different"[0] == 'd' && "no-hash-in-this-bundle"[0] == 'n';
  }

  predicate HashesDiffer(left: Stages, right: Stages, stage: string) {
    && stage in left && stage in right
    && TextOf(left[stage], "hash") != "" && TextOf(right[stage], "hash") != ""
    && TextOf(left[stage], "hash") != TextOf(right[stage], "hash")
  }

  /** The stages that both sides bind and that have different hashes. */
  ghost function DifferentStages(left: Stages, right: Stages): set<string> {
    set stage | stage in left && HashesDiffer(left, right, stage)
  }

  lemma DifferentIs(left: Stages, right: Stages, stage: string)
    requires stage in left || stage in right
    ensures StageRowOf(left, right, stage).verdict == "different" <==> HashesDiffer(left, right, stage)
  {
    assert "same"[0] == 's' && "different"[0] == 'd' && "no-hash-in-this-bundle"[0] == 'n';
    assert "only-in-a"[0] == 'o' && "only-in-b"[0] == 'o';
  }

  ghost function DifferentAmong(left: Stages, right: Stages, names: seq<string>): set<string> {
    set stage | stage in names && HashesDiffer(left, right, stage)
  }

  lemma DifferentAmongNext(left: Stages, right: Stages, names: seq<string>, name: string)
    requires name !in names
    ensures |DifferentAmong(left, right, names + [name])|
            == |DifferentAmong(left, right, names)| + One(HashesDiffer(left, right, name))
  {
    var before := DifferentAmong(left, right, names);
    assert DifferentAmong(left, right, names + [name])
           == if HashesDiffer(left, right, name) then before + {name} else before;
    assert name !in before;
  }

  lemma {:induction false} CountDifferent(left: Stages, right: Stages, names: seq<string>)
    requires Strict(StringLess, names) && forall s | s in names :: s in left || s in right
    ensures DifferentShaders(AbShaders.RowsOver(left, right, names)) == |DifferentAmong(left, right, names)|
  {
    if names == [] {
      assert DifferentAmong(left, right, names) == {};
    } else {
      var n := |names| - 1;
      var init, last := names[..n], names[n];
      assert names == init + [last] && last in names;
      LastIsNew(names);
      CountDifferent(left, right, init);
      AbShaders.RowsAppend(left, right, init, last);
      DifferentIs(left, right, last);
      DifferentAmongNext(left, right, init, last);
      OneMoreRow(AbShaders.RowsOver(left, right, init), StageRowOf(left, right, last));
    }
  }

  lemma LastIsNew(names: seq<string>)
    requires names != [] && Strict(StringLess, names)
    ensures names[|names| - 1] !in names[..|names| - 1]
  {
    StringsOrder();
  }

  lemma OneMoreRow(rows: seq<ShaderRow>, row: ShaderRow)
    ensures DifferentShaders(rows + [row]) == DifferentShaders(rows) + One(row.verdict == "different")
  {
    assert (rows + [row])[..|rows|] == rows;
  }

  /** What the summary counts of a pair are exactly the stages with different hashes. */
  lemma DifferentTells(left: Stages, right: Stages)
    ensures DifferentShaders(ShaderRows(left, right)) == |DifferentStages(left, right)|
  {
    var names := StageNames(left, right);
    CountDifferent(left, right, names);
    assert DifferentAmong(left, right, names) == DifferentStages(left, right);
  }

  /** A row of one of the five lists that the other entry's list lacks is reported, and so is each of the three texts
      that differs. */
  lemma StageTells(one: Entry, other: Entry, field: string, row: string)
    requires field in ["constantBlocks", "readOnlyResources", "readWriteResources", "inputSignature", "outputSignature"]
    ensures HasRow(one, field, row) && !HasRow(other, field, row)
            ==> Change(field, row, "(not present)") in StageChanges(one, other)
    ensures !HasRow(one, field, row) && HasRow(other, field, row)
            ==> Change(field, "(not present)", row) in StageChanges(one, other)
  {
    StageChangesAreExact(one, other);
    assert field in ROW_FIELDS;
    if HasRow(one, field, row) && !HasRow(other, field, row) {
      assert RowDiffers(one, other, field, Change(field, row, "(not present)"));
    }
    if !HasRow(one, field, row) && HasRow(other, field, row) {
      assert RowDiffers(one, other, field, Change(field, "(not present)", row));
    }
  }

  predicate HasRow(entry: Entry, field: string, row: string) {
    field in entry && entry[field].Rows? && row in entry[field].rows
  }

  lemma StageTextTells(one: Entry, other: Entry, field: string, x: string, y: string)
    requires field in ["entry", "encoding", "bytes"] && x != y
    requires field in one && (one[field] == Text(x) || exists n :: one[field] == Number(n) && x == IntText(n))
    requires field in other && (other[field] == Text(y) || exists n :: other[field] == Number(n) && y == IntText(n))
    ensures Change(field, x, y) in StageChanges(one, other)
  {
    StageChangesAreExact(one, other);
    assert TextOf(one, field) == x && TextOf(other, field) == y;
    assert field in SCALAR_FIELDS;
    var i :| 0 <= i < |SCALAR_FIELDS| && SCALAR_FIELDS[i] == field;
    assert TextOf(one, SCALAR_FIELDS[i]) != TextOf(other, SCALAR_FIELDS[i]);
  }

  // ------------------------------------------------------------------ pictures

  function PathOfSlot(kept: Kept, slot: nat): string {
    if slot in kept then kept[slot].path else ""
  }

  /** A picture's row. Equal bytes are equal pictures; a pair whose bytes differ is decoded, or skipped and named
      different: it never reads as unchanged unless the decoder says so. */
  predicate ImageTells(disk: Disk, left: Kept, right: Kept, image: Image) {
    var x, y := PathOfSlot(left, image.slot), PathOfSlot(right, image.slot);
    if x == "" || y == "" then
      !image.decoded && !image.skipped && image.verdict == if x != "" then "only-in-a" else "only-in-b"
    else if x in disk.bytes && y in disk.bytes && disk.bytes[x] == disk.bytes[y] then
      !image.decoded && !image.skipped && image.verdict == "identical"
    else if image.skipped then !image.decoded && image.verdict == "different"
    else image.decoded && image.verdict == disk.pixels(x, y)
  }

  lemma FitsTells(disk: Disk, left: Kept, right: Kept, image: Image)
    requires ImageFits(disk, left, right, image)
    ensures ImageTells(disk, left, right, image)
  {
  }

  lemma SlotsHaveRows(images: seq<Image>, slots: seq<nat>)
    requires Strict(NatLess, slots) && |images| == |slots| && forall k | 0 <= k < |slots| :: images[k].slot == slots[k]
    ensures forall k, l | 0 <= k < l < |images| :: images[k].slot < images[l].slot
    ensures forall slot :: (exists k :: 0 <= k < |images| && images[k].slot == slot) <==> slot in slots
  {
    forall k, l | 0 <= k < l < |images| ensures images[k].slot < images[l].slot {
      assert NatLess(slots[k], slots[l]);
    }
    forall slot | slot in slots ensures exists k :: 0 <= k < |images| && images[k].slot == slot {
      var k :| 0 <= k < |slots| && slots[k] == slot;
      assert images[k].slot == slot;
    }
  }

  /** Every slot that either side wrote has its row, in order. */
  lemma ImagesTell(disk: Disk, left: Kept, right: Kept, budget: nat)
    ensures forall k | 0 <= k < |Images(disk, left, right, budget)| ::
              ImageTells(disk, left, right, Images(disk, left, right, budget)[k])
    ensures forall k, l | 0 <= k < l < |Images(disk, left, right, budget)| ::
              Images(disk, left, right, budget)[k].slot < Images(disk, left, right, budget)[l].slot
    ensures forall slot ::
              (exists k :: 0 <= k < |Images(disk, left, right, budget)| && Images(disk, left, right, budget)[k].slot == slot)
              <==> slot in left || slot in right
  {
    var slots, images := Slots(left, right), Images(disk, left, right, budget);
    ImagesFit(disk, left, right, slots, budget);
    SlotsHaveRows(images, slots);
    forall k | 0 <= k < |images| ensures ImageTells(disk, left, right, images[k]) {
      FitsTells(disk, left, right, images[k]);
    }
  }

  /** The budget is what `--image-detail` says; a number that is not positive allows no decode. */
  lemma DetailTells(c: Comparison, rows: seq<AbRow>)
    requires AllInRange(c, rows)
    ensures c.detail <= 0 ==> TotalDecoded(DocumentOf(c, rows)) == 0
    ensures c.detail > 0 ==> TotalDecoded(DocumentOf(c, rows)) == Least(Sum(Needs(c, rows)), c.detail)
    ensures TotalDecoded(DocumentOf(c, rows)) + TotalSkipped(DocumentOf(c, rows)) == Sum(Needs(c, rows))
  {
    SkippedAreCounted(c, rows);
  }

  // ------------------------------------------------------------------ costs

  /** The costs of a range: how many rows, and their sum. Cost rows behind one another add up. */
  lemma {:induction false} CostsAdd(xs: seq<(int, real)>, ys: seq<(int, real)>, first: int, last: int)
    ensures CostRows(xs + ys, first, last).0 == CostRows(xs, first, last).0 + CostRows(ys, first, last).0
    ensures CostRows(xs + ys, first, last).1 == CostRows(xs, first, last).1 + CostRows(ys, first, last).1
  {
    if ys == [] {
      assert xs + ys == xs;
    } else {
      CostsAdd(xs, ys[..|ys| - 1], first, last);
      assert (xs + ys)[..|xs + ys| - 1] == xs + ys[..|ys| - 1];
    }
  }

  /** And one row counts exactly for an event inside the range, both ends included. */
  lemma OneCost(eid: int, cost: real, first: int, last: int)
    ensures CostRows([(eid, cost)], first, last) == if first <= eid <= last then (1, cost) else (0, 0.0)
    ensures CostRows([], first, last) == (0, 0.0)
  {
    assert [(eid, cost)][..0] == [];
  }

  // ------------------------------------------------------------------ a pass pair of the document

  /** A pass's structure in words, on a pass of two events from 3 to 4. */
  lemma StructureTexts(p: Pass)
    requires p.kind == "graphics" && p.structure == "3 draws" && p.events == 2 && p.firstEid == 3 && p.lastEid == 4
    ensures StructureOf(p) == "graphics, 3 draws, 2 event(s), eids 3..4"
  {
    TwoThreeFour();
    assert "graphics" + ", " + "3 draws" + ", " + "2" == "graphics, 3 draws, 2";
    assert "graphics, 3 draws, 2" + " event(s), eids " + "3" + ".." + "4" == "graphics, 3 draws, 2 event(s), eids 3..4";
  }

  lemma TwoThreeFour()
    ensures IntText(2) == "2" && IntText(3) == "3" && IntText(4) == "4"
  {
    assert DigitOf(2) == '2' && DigitOf(3) == '3' && DigitOf(4) == '4';
  }

  /** What stands in the document about a pass pair: the two sides in their own places, each thing told of what the
      bundles hold at the two first events. */
  lemma PairTells(c: Comparison, row: AbRow, budget: nat)
    requires AbDocument.InRange(c, row) && IsPair(row)
    ensures var p, q, m := c.a.side.passes[row.a.value], c.b.side.passes[row.b.value], MemberOf(c, row, budget);
            && m.path == row.path && m.status == row.status && m.note == row.note
            && m.aFirstEid == p.firstEid && m.bFirstEid == q.firstEid
            && m.changes == StructureChanges(p, q, c.a.side.names, c.b.side.names)
            && m.removed == StateRemoved(c.a, p.firstEid, c.b, q.firstEid)
            && m.added == StateRemoved(c.b, q.firstEid, c.a, p.firstEid)
            && m.counters.rowsA == CostRows(c.a.costs, p.firstEid, p.lastEid).0
            && m.counters.costA == CostRows(c.a.costs, p.firstEid, p.lastEid).1
            && m.counters.rowsB == CostRows(c.b.costs, q.firstEid, q.lastEid).0
            && m.counters.costB == CostRows(c.b.costs, q.firstEid, q.lastEid).1
  {
    AddedIsRemovedBack(c.a, c.a.side.passes[row.a.value].firstEid, c.b, c.b.side.passes[row.b.value].firstEid);
  }

  /** What stands there about a pass that one side alone has: that pass, and nothing it could be compared with. */
  lemma OneSidedTells(c: Comparison, row: AbRow, budget: nat)
    requires AbDocument.InRange(c, row) && !IsPair(row)
    ensures var m := MemberOf(c, row, budget);
            && m.path == row.path && m.status == row.status && m.note == row.note && m.aFirstEid == m.bFirstEid == 0
            && m.structure == StructureOf(if row.a.Some? then c.a.side.passes[row.a.value] else c.b.side.passes[row.b.value])
            && m.changes == [] && m.removed == [] && m.added == [] && m.shaders == [] && m.blocks == [] && m.images == []
            && m.counters == Counters(0.0, 0.0, 0, 0, 0.0, "not compared")
  {
  }

  /** A stage that both passes bind at their first events has its row in the document, with the verdict its hashes
      deserve. */
  lemma StageInDocument(c: Comparison, row: AbRow, budget: nat, stage: string, hashA: string, hashB: string) returns (k: nat)
    requires AbDocument.InRange(c, row) && IsPair(row)
    requires var e, f := c.a.side.passes[row.a.value].firstEid, c.b.side.passes[row.b.value].firstEid;
             && e in c.a.stages && f in c.b.stages && stage in c.a.stages[e] && stage in c.b.stages[f]
             && Hashed(c.a.stages[e][stage], hashA) && Hashed(c.b.stages[f][stage], hashB)
    ensures var shaders := MemberOf(c, row, budget).shaders;
            && k < |shaders| && shaders[k].stage == stage && shaders[k].aHash == hashA && shaders[k].bHash == hashB
            && (shaders[k].verdict == "same" <==> hashA != "" && hashB != "" && hashA == hashB)
            && (shaders[k].verdict == "different" <==> hashA != "" && hashB != "" && hashA != hashB)
  {
    var left := StagesAt(c.a, c.a.side.passes[row.a.value].firstEid);
    var right := StagesAt(c.b, c.b.side.passes[row.b.value].firstEid);
    VerdictTells(left, right, stage, hashA, hashB);
    assert stage in StageNames(left, right);
    k :| 0 <= k < |StageNames(left, right)| && StageNames(left, right)[k] == stage;
  }

  /** A block that either pass binds at its first event has its row in the document. */
  lemma BlockInDocument(c: Comparison, row: AbRow, budget: nat, key: (string, nat)) returns (k: nat)
    requires AbDocument.InRange(c, row) && IsPair(row)
    requires var e, f := c.a.side.passes[row.a.value].firstEid, c.b.side.passes[row.b.value].firstEid;
             e in c.a.blocks && f in c.b.blocks && (key in c.a.blocks[e] || key in c.b.blocks[f])
    ensures var e, f := c.a.side.passes[row.a.value].firstEid, c.b.side.passes[row.b.value].firstEid;
            && k < |MemberOf(c, row, budget).blocks|
            && BlockTells(MemberOf(c, row, budget).blocks[k], c.a.blocks[e], c.b.blocks[f], key)
  {
    var left := BlocksAt(c.a, c.a.side.passes[row.a.value].firstEid);
    var right := BlocksAt(c.b, c.b.side.passes[row.b.value].firstEid);
    BlocksTell(left, right, key);
    k :| 0 <= k < |BlockKeys(left, right)| && BlockKeys(left, right)[k] == key;
  }

  /** With pictures asked for, the latest readback of each slot in either pass's range stands in the document. */
  lemma PicturesInDocument(c: Comparison, row: AbRow, budget: nat)
    requires AbDocument.InRange(c, row) && IsPair(row)
    ensures var p, q := c.a.side.passes[row.a.value], c.b.side.passes[row.b.value];
            var left, right := LatestOf(c.a.readbacks, p.firstEid, p.lastEid), LatestOf(c.b.readbacks, q.firstEid, q.lastEid);
            var images := MemberOf(c, row, budget).images;
            if !c.withImages then images == []
            else (forall k | 0 <= k < |images| :: ImageTells(c.disk, left, right, images[k]))
                 && forall slot :: (exists k :: 0 <= k < |images| && images[k].slot == slot) <==> slot in left || slot in right
  {
    var p, q := c.a.side.passes[row.a.value], c.b.side.passes[row.b.value];
    if c.withImages {
      ImagesTell(c.disk, LatestOf(c.a.readbacks, p.firstEid, p.lastEid), LatestOf(c.b.readbacks, q.firstEid, q.lastEid), budget);
    }
  }

  // ------------------------------------------------------------------ the summary

  /** Where in a list something holds. */
  ghost function Where<T(!new)>(list: seq<T>, holds: T -> bool): set<nat> {
    set i: nat | i < |list| && holds(list[i])
  }

  lemma WhereNext<T(!new)>(list: seq<T>, last: T, holds: T -> bool)
    ensures |Where(list + [last], holds)| == |Where(list, holds)| + One(holds(last))
  {
    var before := Where(list, holds);
    assert Where(list + [last], holds) == if holds(last) then before + {|list|} else before;
    assert |list| !in before;
  }

  ghost function Total<T(!new)>(list: seq<T>, f: T -> nat): nat {
    if list == [] then 0 else Total(list[..|list| - 1], f) + f(list[|list| - 1])
  }

  ghost predicate Adds(field: Summary -> nat) {
    field(Summarize([])) == 0 && forall x, y :: field(Add(x, y)) == field(x) + field(y)
  }

  lemma {:induction false} CountedOf(passes: seq<Member>, holds: Member -> bool, field: Summary -> nat)
    requires Adds(field) && forall m :: field(Contribution(m)) == One(holds(m))
    ensures field(Summarize(passes)) == |Where(passes, holds)|
  {
    if passes == [] {
      assert Where(passes, holds) == {};
    } else {
      var init, last := passes[..|passes| - 1], passes[|passes| - 1];
      CountedOf(init, holds, field);
      WhereNext(init, last, holds);
      assert passes == init + [last];
    }
  }

  lemma {:induction false} SummedOf(passes: seq<Member>, f: Member -> nat, field: Summary -> nat)
    requires Adds(field) && forall m :: field(Contribution(m)) == f(m)
    ensures field(Summarize(passes)) == Total(passes, f)
  {
    if passes != [] {
      SummedOf(passes[..|passes| - 1], f, field);
    }
  }

  /** The pass counts of the summary: the passes of each status, those with a changed field, those with a state row
      gone or new, those whose costs were compared, and those cheaper and dearer. */
  lemma SummaryCounts(passes: seq<Member>)
    ensures var s := Summarize(passes);
            && s.same == |Where(passes, (m: Member) => m.status == "same")|
            && s.added == |Where(passes, (m: Member) => m.status == "added")|
            && s.removed == |Where(passes, (m: Member) => m.status == "removed")|
            && s.structureChanges == |Where(passes, (m: Member) => |m.changes| > 0)|
            && s.stateChanges == |Where(passes, (m: Member) => |m.removed| > 0 || |m.added| > 0)|
  {
    CountedOf(passes, (m: Member) => m.status == "same", (s: Summary) => s.same);
    CountedOf(passes, (m: Member) => m.status == "added", (s: Summary) => s.added);
    CountedOf(passes, (m: Member) => m.status == "removed", (s: Summary) => s.removed);
    CountedOf(passes, (m: Member) => |m.changes| > 0, (s: Summary) => s.structureChanges);
    CountedOf(passes, (m: Member) => |m.removed| > 0 || |m.added| > 0, (s: Summary) => s.stateChanges);
  }

  lemma SummaryCosts(passes: seq<Member>)
    ensures var s := Summarize(passes);
            && s.countersCompared == |Where(passes, (m: Member) => m.counters.verdict != "not compared")|
            && s.cheaper == |Where(passes, (m: Member) => m.counters.verdict == "cheaper")|
            && s.dearer == |Where(passes, (m: Member) => m.counters.verdict == "dearer")|
  {
    CountedOf(passes, (m: Member) => m.counters.verdict != "not compared", (s: Summary) => s.countersCompared);
    CountedOf(passes, (m: Member) => m.counters.verdict == "cheaper", (s: Summary) => s.cheaper);
    CountedOf(passes, (m: Member) => m.counters.verdict == "dearer", (s: Summary) => s.dearer);
  }

  ghost function BlocksMoved(m: Member): nat {
    |Where(m.blocks, (b: BlockRow) => |b.values| > 0)|
  }

  ghost function ShadersDiffer(m: Member): nat {
    |Where(m.shaders, (r: ShaderRow) => r.verdict == "different")|
  }

  ghost function ImagesTold(m: Member): nat {
    |Where(m.images, (i: Image) => i.verdict == "identical" || i.verdict == "different")|
  }

  ghost function ImagesSkipped(m: Member): nat {
    |Where(m.images, (i: Image) => i.skipped)|
  }

  lemma {:induction false} BlocksCounted(blocks: seq<BlockRow>)
    ensures MovedBlocks(blocks) == |Where(blocks, (b: BlockRow) => |b.values| > 0)|
  {
    if blocks == [] {
      assert Where(blocks, (b: BlockRow) => |b.values| > 0) == {};
    } else {
      var n := |blocks| - 1;
      BlocksCounted(blocks[..n]);
      WhereNext(blocks[..n], blocks[n], (b: BlockRow) => |b.values| > 0);
      assert blocks == blocks[..n] + [blocks[n]];
    }
  }

  lemma {:induction false} ShadersCounted(shaders: seq<ShaderRow>)
    ensures DifferentShaders(shaders) == |Where(shaders, (r: ShaderRow) => r.verdict == "different")|
  {
    if shaders == [] {
      assert Where(shaders, (r: ShaderRow) => r.verdict == "different") == {};
    } else {
      var n := |shaders| - 1;
      ShadersCounted(shaders[..n]);
      WhereNext(shaders[..n], shaders[n], (r: ShaderRow) => r.verdict == "different");
      assert shaders == shaders[..n] + [shaders[n]];
    }
  }

  lemma {:induction false} ImagesCounted(images: seq<Image>)
    ensures ComparedImages(images) == |Where(images, (i: Image) => i.verdict == "identical" || i.verdict == "different")|
    ensures Skipped(images) == |Where(images, (i: Image) => i.skipped)|
  {
    if images == [] {
      assert Where(images, (i: Image) => i.verdict == "identical" || i.verdict == "different") == {};
      assert Where(images, (i: Image) => i.skipped) == {};
    } else {
      var n := |images| - 1;
      ImagesCounted(images[..n]);
      WhereNext(images[..n], images[n], (i: Image) => i.verdict == "identical" || i.verdict == "different");
      WhereNext(images[..n], images[n], (i: Image) => i.skipped);
      assert images == images[..n] + [images[n]];
    }
  }

  /** The other counts: blocks with a value that moved, stages of which the hashes differ, pictures told identical or
      different, and pictures skipped, over all passes. */
  lemma SummarySums(passes: seq<Member>)
    ensures var s := Summarize(passes);
            && s.constantsChanged == Total(passes, (m: Member) => BlocksMoved(m))
            && s.shadersDifferent == Total(passes, (m: Member) => ShadersDiffer(m))
            && s.imagesCompared == Total(passes, (m: Member) => ImagesTold(m))
            && s.imagesNotCompared == Total(passes, (m: Member) => ImagesSkipped(m))
  {
    forall m: Member
      ensures MovedBlocks(m.blocks) == BlocksMoved(m) && DifferentShaders(m.shaders) == ShadersDiffer(m)
      ensures ComparedImages(m.images) == ImagesTold(m) && Skipped(m.images) == ImagesSkipped(m)
    {
      BlocksCounted(m.blocks);
      ShadersCounted(m.shaders);
      ImagesCounted(m.images);
    }
    SummedOf(passes, (m: Member) => BlocksMoved(m), (s: Summary) => s.constantsChanged);
    SummedOf(passes, (m: Member) => ShadersDiffer(m), (s: Summary) => s.shadersDifferent);
    SummedOf(passes, (m: Member) => ImagesTold(m), (s: Summary) => s.imagesCompared);
    SummedOf(passes, (m: Member) => ImagesSkipped(m), (s: Summary) => s.imagesNotCompared);
  }

  /** The stages of a row whose passes bind them with different hashes; none for a pass on one side only. */
  ghost function StagesApart(c: Comparison, row: AbRow): nat
    requires AbDocument.InRange(c, row)
  {
    if !IsPair(row) then 0
    else |DifferentStages(StagesAt(c.a, c.a.side.passes[row.a.value].firstEid),
                          StagesAt(c.b, c.b.side.passes[row.b.value].firstEid))|
  }

  ghost function AllStagesApart(c: Comparison, rows: seq<AbRow>, n: nat): nat
    requires AllInRange(c, rows) && n <= |rows|
  {
    if n == 0 then 0 else AllStagesApart(c, rows, n - 1) + StagesApart(c, rows[n - 1])
  }

  lemma MemberStages(c: Comparison, row: AbRow, budget: nat)
    requires AbDocument.InRange(c, row)
    ensures DifferentShaders(MemberOf(c, row, budget).shaders) == StagesApart(c, row)
  {
    if IsPair(row) {
      DifferentTells(StagesAt(c.a, c.a.side.passes[row.a.value].firstEid),
                     StagesAt(c.b, c.b.side.passes[row.b.value].firstEid));
    }
  }

  lemma SummaryNext(passes: seq<Member>, n: nat)
    requires 0 < n <= |passes|
    ensures Summarize(passes[..n]).shadersDifferent
            == Summarize(passes[..n - 1]).shadersDifferent + DifferentShaders(passes[n - 1].shaders)
  {
    assert passes[..n][..n - 1] == passes[..n - 1];
  }

  lemma {:induction false} StagesCounted(c: Comparison, rows: seq<AbRow>, n: nat)
    requires AllInRange(c, rows) && n <= |rows|
    ensures Summarize(DocumentOf(c, rows)[..n]).shadersDifferent == AllStagesApart(c, rows, n)
  {
    if n > 0 {
      StagesCounted(c, rows, n - 1);
      DocumentAt(c, rows, n - 1);
      MemberStages(c, rows[n - 1], LeftAt(Budget(c.detail), Needs(c, rows), n - 1));
      SummaryNext(DocumentOf(c, rows), n);
    }
  }

  /** The document's count of different shaders: over all its pass pairs the stages that both bind with different
      hashes, and no others. */
  lemma ShadersDifferentTells(c: Comparison, rows: seq<AbRow>)
    requires AllInRange(c, rows)
    ensures Summarize(DocumentOf(c, rows)).shadersDifferent == AllStagesApart(c, rows, |rows|)
  {
    StagesCounted(c, rows, |rows|);
    assert DocumentOf(c, rows)[..|rows|] == DocumentOf(c, rows);
  }
}
