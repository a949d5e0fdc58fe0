/** The summary of the comparison, and of the comparison made the other way round (src/py/rdc_ab.py). */
module AbSummary {
  import opened Basics
  import opened Occurrence
  import opened Alignment
  import opened AbPair
  import opened AbConstants
  import opened AbShaders
  import opened AbImages
  import opened AbDocument

  /** Added and removed, and cheaper and dearer, exchanged. */
  function Turned(s: Summary): Summary {
    s.(added := s.removed, removed := s.added, cheaper := s.dearer, dearer := s.cheaper)
  }

  // ------------------------------------------------------------------ sums in any order

  function Fold(entries: seq<Summary>): Summary {
    if entries == [] then Summarize([]) else Add(Fold(entries[..|entries| - 1]), entries[|entries| - 1])
  }

  lemma AddLaws(x: Summary, y: Summary, z: Summary)
    ensures Add(Add(x, y), z) == Add(Add(x, z), y)
    ensures Turned(Add(x, y)) == Add(Turned(x), Turned(y))
  {
  }

  function Without<T>(list: seq<T>, p: nat): (rest: seq<T>)
    requires p < |list|
    ensures |rest| == |list| - 1
    ensures forall i | 0 <= i < |rest| :: rest[i] == if i < p then list[i] else list[i + 1]
  {
    list[..p] + list[p + 1..]
  }

  /** Any entry can be added last. */
  lemma {:induction false} FoldWithout(entries: seq<Summary>, p: nat)
    requires p < |entries|
    ensures Fold(entries) == Add(Fold(Without(entries, p)), entries[p])
  {
    var n := |entries| - 1;
    if p == n {
      assert Without(entries, n) == entries[..n];
    } else {
      var init, last := entries[..n], entries[n];
      FoldWithout(init, p);
      assert Without(entries, p)[..n - 1] == Without(init, p) && Without(entries, p)[n - 1] == last;
      AddLaws(Fold(Without(init, p)), entries[p], last);
    }
  }

  /** Every entry of one list has its own turned entry in the other. */
  ghost predicate Placed(xs: seq<Summary>, ys: seq<Summary>, place: seq<nat>) {
    && |xs| == |ys| == |place|
    && (forall i | 0 <= i < |place| :: place[i] < |ys| && ys[place[i]] == Turned(xs[i]))
    && forall i, k | 0 <= i < k < |place| :: place[i] != place[k]
  }

  function Closed(place: seq<nat>, p: nat): (rest: seq<nat>)
    requires place != []
    ensures |rest| == |place| - 1
    ensures forall i | 0 <= i < |rest| :: rest[i] == if place[i] > p then place[i] - 1 else place[i]
  {
    seq(|place| - 1, i requires 0 <= i < |place| - 1 => if place[i] > p then place[i] - 1 else place[i])
  }

  lemma PlacedRest(xs: seq<Summary>, ys: seq<Summary>, place: seq<nat>)
    requires Placed(xs, ys, place) && xs != []
    ensures var p := place[|xs| - 1];
            p < |ys| && Placed(xs[..|xs| - 1], Without(ys, p), Closed(place, p))
  {
    var n, p := |xs| - 1, place[|xs| - 1];
    var rest, left := Closed(place, p), Without(ys, p);
    forall i | 0 <= i < n ensures rest[i] < |left| && left[rest[i]] == Turned(xs[..n][i]) {
      assert place[i] != p;
    }
    forall i, k | 0 <= i < k < n ensures rest[i] != rest[k] {
      assert place[i] != place[k] && place[i] != p && place[k] != p;
    }
  }

  lemma {:induction false} FoldPlaced(xs: seq<Summary>, ys: seq<Summary>, place: seq<nat>)
    requires Placed(xs, ys, place)
    ensures Fold(ys) == Turned(Fold(xs))
    decreases |xs|
  {
    if xs != [] {
      var n, p := |xs| - 1, place[|xs| - 1];
      PlacedRest(xs, ys, place);
      FoldPlaced(xs[..n], Without(ys, p), Closed(place, p));
      FoldWithout(ys, p);
      AddLaws(Fold(xs[..n]), xs[n], xs[n]);
    }
  }

  // ------------------------------------------------------------------ the rows of both alignments

  lemma {:induction false} SwapSize(pairs: Pairs)
    ensures |Swap(pairs)| == |pairs|
    decreases |pairs|
  {
    if pairs != {} {
      var p :| p in pairs;
      SwapSize(pairs - {p});
      assert Swap(pairs) == Swap(pairs - {p}) + {(p.1, p.0)};
      assert (p.1, p.0) !in Swap(pairs - {p});
    } else {
      assert Swap(pairs) == {};
    }
  }

  lemma SameCount(a: Keys, b: Keys, rows: seq<AbRow>, rowsBack: seq<AbRow>)
    requires AlignmentRows(a, b, rows) && AlignmentRows(b, a, rowsBack)
    ensures |rows| == |rowsBack|
  {
    RowCount(a, b, rows);
    RowCount(b, a, rowsBack);
    AlignedIsSymmetric(a, b);
    SwapSize(Aligned(a, b));
  }

  /** The same row of the alignment made the other way round. */
  predicate IsBack(row: AbRow, back: AbRow) {
    && back.a == row.b && back.b == row.a
    && back.status == (if row.status == "added" then "removed" else if row.status == "removed" then "added" else row.status)
    && (IsPair(row) <==> row.status == "same")
  }

  lemma StatusOfA(a: Keys, b: Keys, rows: seq<AbRow>, i: nat)
    requires AlignmentRows(a, b, rows) && i < |a.paths|
    ensures rows[i].a == Some(i) && rows[i].status == if rows[i].b.Some? then "same" else "removed"
    ensures rows[i].b.Some? ==> (i, rows[i].b.value) in Aligned(a, b)
    ensures rows[i].b == None ==> i !in Lefts(Aligned(a, b))
  {
    assert RowOfA(Aligned(a, b), a.paths[i], Evidence(a, b, i), i, rows[i]);
  }

  /** The row of B's `t`-th unmatched pass, which is pass `j`. */
  ghost predicate IsAdded(pairs: Pairs, paths: seq<string>, row: AbRow, t: nat, j: nat) {
    && j < |paths| && j !in Rights(pairs) && row == RowOfB(paths[j], j)
    && t < |Untaken(pairs, |paths|)| && j == Untaken(pairs, |paths|)[t]
  }

  /** The rows behind those of A's passes. */
  lemma TailOf(a: Keys, b: Keys, rows: seq<AbRow>)
    requires AlignmentRows(a, b, rows)
    ensures |a.paths| <= |rows| && rows[|a.paths|..] == AddedOf(b.paths, Untaken(Aligned(a, b), |b.paths|))
  {
  }

  lemma TailRow(pairs: Pairs, paths: seq<string>, rows: seq<AbRow>, m: nat, i: nat) returns (j: nat)
    requires m <= i < |rows| && rows[m..] == AddedOf(paths, Untaken(pairs, |paths|))
    ensures IsAdded(pairs, paths, rows[i], i - m, j)
  {
    RowInTail(rows, m, i, paths, Untaken(pairs, |paths|));
    j := Untaken(pairs, |paths|)[i - m];
  }

  /** Every row has its row in the other alignment. */
  lemma BackOf(a: Keys, b: Keys, rows: seq<AbRow>, rowsBack: seq<AbRow>, i: nat) returns (k: nat)
    requires AlignmentRows(a, b, rows) && AlignmentRows(b, a, rowsBack) && i < |rows|
    ensures k < |rowsBack| && IsBack(rows[i], rowsBack[k])
  {
    if i >= |a.paths| {
      TailOf(a, b, rows);
      k := TailRow(Aligned(a, b), b.paths, rows, |a.paths|, i);
      AlignedIsSymmetric(a, b);
      SwapSides(Aligned(a, b));
      StatusOfA(b, a, rowsBack, k);
      AlignedIsOneToOne(b, a);
      NoPartner(Aligned(b, a), k, rowsBack[k]);
    } else {
      StatusOfA(a, b, rows, i);
      if rows[i].b.Some? {
        PairedRowSwaps(a, b, rows, rowsBack, i);
        k := rows[i].b.value;
        AlignedIsOneToOne(a, b);
        StatusOfA(b, a, rowsBack, k);
      } else {
        k := RemovedIsAdded(a, b, rows, rowsBack, i);
      }
    }
  }

  lemma NoPartner(pairs: Pairs, k: nat, row: AbRow)
    requires k !in Lefts(pairs) && (row.b.Some? ==> (k, row.b.value) in pairs)
    ensures row.b == None
  {
  }

  lemma RowsDiffer(a: Keys, b: Keys, rows: seq<AbRow>, i: nat, k: nat)
    requires AlignmentRows(a, b, rows) && i < k < |rows|
    ensures rows[i].a != rows[k].a || rows[i].b != rows[k].b
  {
    if i < |a.paths| {
      StatusOfA(a, b, rows, i);
      if k < |a.paths| {
        StatusOfA(a, b, rows, k);
      } else {
        TailOf(a, b, rows);
        var j := TailRow(Aligned(a, b), b.paths, rows, |a.paths|, k);
      }
    } else {
      TailOf(a, b, rows);
      var j := TailRow(Aligned(a, b), b.paths, rows, |a.paths|, i);
      TailOf(a, b, rows);
      var l := TailRow(Aligned(a, b), b.paths, rows, |a.paths|, k);
    }
  }

  ghost predicate HasBack(row: AbRow, rowsBack: seq<AbRow>) {
    exists k: nat :: k < |rowsBack| && IsBack(row, rowsBack[k])
  }

  lemma AllHaveBack(a: Keys, b: Keys, rows: seq<AbRow>, rowsBack: seq<AbRow>)
    requires AlignmentRows(a, b, rows) && AlignmentRows(b, a, rowsBack)
    ensures forall i: nat | i < |rows| :: HasBack(rows[i], rowsBack)
  {
    forall i: nat | i < |rows| ensures HasBack(rows[i], rowsBack) {
      var k := BackOf(a, b, rows, rowsBack, i);
    }
  }

  /** The places of the rows in the other alignment. */
  lemma {:induction false} PlacesOf(rows: seq<AbRow>, rowsBack: seq<AbRow>, n: nat) returns (place: seq<nat>)
    requires n <= |rows| && forall i: nat | i < |rows| :: HasBack(rows[i], rowsBack)
    ensures |place| == n
    ensures forall i: nat | i < n :: place[i] < |rowsBack| && IsBack(rows[i], rowsBack[place[i]])
  {
    if n == 0 {
      place := [];
    } else {
      place := PlacesOf(rows, rowsBack, n - 1);
      assert HasBack(rows[n - 1], rowsBack);
      var k: nat :| k < |rowsBack| && IsBack(rows[n - 1], rowsBack[k]);
      place := place + [k];
    }
  }

  lemma PlacesDiffer(a: Keys, b: Keys, rows: seq<AbRow>, rowsBack: seq<AbRow>, place: seq<nat>)
    requires AlignmentRows(a, b, rows) && |place| == |rows|
    requires forall i | 0 <= i < |rows| :: place[i] < |rowsBack| && IsBack(rows[i], rowsBack[place[i]])
    ensures forall i, k | 0 <= i < k < |place| :: place[i] != place[k]
  {
    forall i, k | 0 <= i < k < |place| ensures place[i] != place[k] {
      RowsDiffer(a, b, rows, i, k);
    }
  }

  // ------------------------------------------------------------------ what a row and its other row contribute

  lemma {:induction false} SameMoved(forth: seq<BlockRow>, back: seq<BlockRow>)
    requires |forth| == |back| && forall k | 0 <= k < |forth| :: BlockSwaps(forth[k], back[k])
    ensures MovedBlocks(back) == MovedBlocks(forth)
  {
    if forth != [] {
      var n := |forth| - 1;
      SameMoved(forth[..n], back[..n]);
      assert BlockSwaps(forth[n], back[n]);
    }
  }

  lemma SameDifferent(c: Comparison, forth: Member, back: Member)
    requires Exchanged(c, forth, back)
    ensures DifferentShaders(back.shaders) == DifferentShaders(forth.shaders)
  {
    StagesDiffer(StagesAt(c.a, forth.aFirstEid), StagesAt(c.b, forth.bFirstEid), forth.shaders, back.shaders);
  }

  lemma {:induction false} StagesDiffer(left: Stages, right: Stages, forth: seq<ShaderRow>, back: seq<ShaderRow>)
    requires StagesSwap(left, right, forth, back)
    ensures DifferentShaders(back) == DifferentShaders(forth)
    decreases |forth|
  {
    if forth != [] {
      var n := |forth| - 1;
      StagesDiffer(left, right, forth[..n], back[..n]);
      assert StageSwaps(left, right, forth[n], back[n]);
    }
  }

  lemma {:induction false} SameNeed(disk: Disk, left: Kept, right: Kept, slots: seq<nat>)
    ensures Need(disk, right, left, slots) == Need(disk, left, right, slots)
  {
    if slots != [] {
      SameNeed(disk, left, right, slots[..|slots| - 1]);
    }
  }

  lemma PairNeedSwaps(c: Comparison, p: Pass, q: Pass)
    ensures PairNeed(Back(c), q, p) == PairNeed(c, p, q)
  {
    if c.withImages {
      SlotsSwap(KeptOf(c.a, p), KeptOf(c.b, q));
      SameNeed(c.disk, KeptOf(c.a, p), KeptOf(c.b, q), Slots(KeptOf(c.a, p), KeptOf(c.b, q)));
    }
  }

  lemma NeedSwaps(c: Comparison, row: AbRow, back: AbRow)
    requires AbDocument.InRange(c, row) && AbDocument.InRange(Back(c), back) && IsBack(row, back)
    ensures NeedOf(Back(c), back) == NeedOf(c, row)
  {
    if IsPair(row) {
      PairNeedSwaps(c, c.a.side.passes[row.a.value], c.b.side.passes[row.b.value]);
    }
  }

  /** What a row adds to the summary, its pictures given by how many of its pairs differ. */
  function EntryOf(m: Member, need: nat): Summary {
    Contribution(m).(imagesCompared := 0, imagesNotCompared := need)
  }

  lemma OtherVerdicts(verdict: string)
    requires verdict in ["not compared", "cheaper", "dearer", "same"]
    ensures OtherVerdict(verdict) == "not compared" <==> verdict == "not compared"
    ensures OtherVerdict(verdict) == "cheaper" <==> verdict == "dearer"
    ensures OtherVerdict(verdict) == "dearer" <==> verdict == "cheaper"
  {
    assert "not compared"[0] == 'n' && "cheaper"[0] == 'c' && "dearer"[0] == 'd' && "same"[0] == 's';
  }

  lemma StatusTurns(row: AbRow, back: AbRow)
    requires IsBack(row, back)
    ensures back.status == "same" <==> row.status == "same"
    ensures back.status == "added" <==> row.status == "removed"
    ensures back.status == "removed" <==> row.status == "added"
  {
    assert "added"[0] == 'a' && "removed"[0] == 'r' && "same"[0] == 's';
  }

  lemma EntryTurns(forth: Member, back: Member, need: nat)
    requires back.status == "same" <==> forth.status == "same"
    requires back.status == "added" <==> forth.status == "removed"
    requires back.status == "removed" <==> forth.status == "added"
    requires MemberSwaps(forth, back) && DifferentShaders(back.shaders) == DifferentShaders(forth.shaders)
    requires forth.counters.verdict in ["not compared", "cheaper", "dearer", "same"]
    ensures EntryOf(back, need) == Turned(EntryOf(forth, need))
  {
    SameMoved(forth.blocks, back.blocks);
    OtherVerdicts(forth.counters.verdict);
  }

  lemma PairTurns(c: Comparison, row: AbRow, budget: nat, back: AbRow, budgetBack: nat)
    requires AbDocument.InRange(c, row) && AbDocument.InRange(Back(c), back) && IsBack(row, back) && IsPair(row)
    ensures EntryOf(MemberOf(Back(c), back, budgetBack), NeedOf(Back(c), back))
            == Turned(EntryOf(MemberOf(c, row, budget), NeedOf(c, row)))
  {
    NeedSwaps(c, row, back);
    StatusTurns(row, back);
    MembersSwap(c, row, budget, back, budgetBack);
    SameDifferent(c, MemberOf(c, row, budget), MemberOf(Back(c), back, budgetBack));
    CounterVerdicts(c.a, c.b, c.a.side.passes[row.a.value], c.b.side.passes[row.b.value]);
    EntryTurns(MemberOf(c, row, budget), MemberOf(Back(c), back, budgetBack), NeedOf(c, row));
  }

  lemma OneSidedTurns(c: Comparison, row: AbRow, budget: nat, back: AbRow, budgetBack: nat)
    requires AbDocument.InRange(c, row) && AbDocument.InRange(Back(c), back) && IsBack(row, back) && !IsPair(row)
    ensures EntryOf(MemberOf(Back(c), back, budgetBack), NeedOf(Back(c), back))
            == Turned(EntryOf(MemberOf(c, row, budget), NeedOf(c, row)))
  {
    StatusTurns(row, back);
    assert "not compared"[0] == 'n' && "cheaper"[0] == 'c' && "dearer"[0] == 'd';
  }

  // ------------------------------------------------------------------ the summary of all rows

  function EntriesOf(passes: seq<Member>, needs: seq<nat>): (entries: seq<Summary>)
    requires |passes| == |needs|
    ensures |entries| == |passes|
  {
    seq(|passes|, i requires 0 <= i < |passes| => EntryOf(passes[i], needs[i]))
  }

  lemma EntriesInit(passes: seq<Member>, needs: seq<nat>)
    requires |passes| == |needs| > 0
    ensures EntriesOf(passes, needs)[..|passes| - 1] == EntriesOf(passes[..|passes| - 1], needs[..|needs| - 1])
  {
  }

  /** The summary's own sum, apart from the pictures. */
  lemma {:induction false} SummaryFolds(passes: seq<Member>, needs: seq<nat>)
    requires |passes| == |needs|
    ensures Fold(EntriesOf(passes, needs)) == Summarize(passes).(imagesCompared := 0, imagesNotCompared := Sum(needs))
  {
    if passes != [] {
      var n := |passes| - 1;
      SummaryFolds(passes[..n], needs[..n]);
      EntriesInit(passes, needs);
    } else {
      assert EntriesOf(passes, needs) == [];
    }
  }

  lemma RowTurns(c: Comparison, rows: seq<AbRow>, i: nat, rowsBack: seq<AbRow>, k: nat)
    requires AllInRange(c, rows) && AllInRange(Back(c), rowsBack)
    requires i < |rows| && k < |rowsBack| && IsBack(rows[i], rowsBack[k])
    ensures EntriesOf(DocumentOf(Back(c), rowsBack), Needs(Back(c), rowsBack))[k]
            == Turned(EntriesOf(DocumentOf(c, rows), Needs(c, rows))[i])
  {
    var budget := LeftAt(Budget(c.detail), Needs(c, rows), i);
    var budgetBack := LeftAt(Budget(c.detail), Needs(Back(c), rowsBack), k);
    DocumentAt(c, rows, i);
    DocumentAt(Back(c), rowsBack, k);
    if IsPair(rows[i]) {
      PairTurns(c, rows[i], budget, rowsBack[k], budgetBack);
    } else {
      OneSidedTurns(c, rows[i], budget, rowsBack[k], budgetBack);
    }
  }

  lemma EntriesTurn(c: Comparison, rows: seq<AbRow>, rowsBack: seq<AbRow>, place: seq<nat>)
    requires AllInRange(c, rows) && AllInRange(Back(c), rowsBack) && |place| == |rows| == |rowsBack|
    requires forall i: nat | i < |rows| :: place[i] < |rowsBack| && IsBack(rows[i], rowsBack[place[i]])
    requires forall i, k | 0 <= i < k < |place| :: place[i] != place[k]
    ensures Fold(EntriesOf(DocumentOf(Back(c), rowsBack), Needs(Back(c), rowsBack)))
            == Turned(Fold(EntriesOf(DocumentOf(c, rows), Needs(c, rows))))
  {
    var forth := EntriesOf(DocumentOf(c, rows), Needs(c, rows));
    var back := EntriesOf(DocumentOf(Back(c), rowsBack), Needs(Back(c), rowsBack));
    forall i: nat | i < |place| ensures place[i] < |back| && back[place[i]] == Turned(forth[i]) {
      RowTurns(c, rows, i, rowsBack, place[i]);
    }
    FoldPlaced(forth, back, place);
  }

  lemma FoldsTurn(c: Comparison, rows: seq<AbRow>, rowsBack: seq<AbRow>)
    requires AlignmentRows(SideKeysOf(c.a.side), SideKeysOf(c.b.side), rows) && AllInRange(c, rows)
    requires AlignmentRows(SideKeysOf(c.b.side), SideKeysOf(c.a.side), rowsBack) && AllInRange(Back(c), rowsBack)
    ensures Fold(EntriesOf(DocumentOf(Back(c), rowsBack), Needs(Back(c), rowsBack)))
            == Turned(Fold(EntriesOf(DocumentOf(c, rows), Needs(c, rows))))
  {
    var a, b := SideKeysOf(c.a.side), SideKeysOf(c.b.side);
    AllHaveBack(a, b, rows, rowsBack);
    SameCount(a, b, rows, rowsBack);
    var place := PlacesOf(rows, rowsBack, |rows|);
    PlacesDiffer(a, b, rows, rowsBack, place);
    EntriesTurn(c, rows, rowsBack, place);
  }

  /** The summary of the comparison made the other way round, for every pair of bundles: passes added and removed are
      exchanged and so are those cheaper and dearer, and every other number is the same, however the budget fell. Only
      how many pictures count as compared is not said: it hangs on what the decoder makes of the pairs it gets. */
  lemma SummariesSwap(c: Comparison, rows: seq<AbRow>, rowsBack: seq<AbRow>)
    requires AlignmentRows(SideKeysOf(c.a.side), SideKeysOf(c.b.side), rows) && AllInRange(c, rows)
    requires AlignmentRows(SideKeysOf(c.b.side), SideKeysOf(c.a.side), rowsBack) && AllInRange(Back(c), rowsBack)
    ensures var forth, back := Summarize(DocumentOf(c, rows)), Summarize(DocumentOf(Back(c), rowsBack));
            && back.same == forth.same && back.added == forth.removed && back.removed == forth.added
            && back.structureChanges == forth.structureChanges && back.stateChanges == forth.stateChanges
            && back.constantsChanged == forth.constantsChanged && back.shadersDifferent == forth.shadersDifferent
            && back.imagesNotCompared == forth.imagesNotCompared && back.countersCompared == forth.countersCompared
            && back.cheaper == forth.dearer && back.dearer == forth.cheaper
  {
    FoldsTurn(c, rows, rowsBack);
    SummaryFolds(DocumentOf(c, rows), Needs(c, rows));
    SummaryFolds(DocumentOf(Back(c), rowsBack), Needs(Back(c), rowsBack));
    SkippedAreCounted(c, rows);
    SkippedAreCounted(Back(c), rowsBack);
  }
}
