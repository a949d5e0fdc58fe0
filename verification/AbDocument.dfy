/**
 `build_document` of the A/B comparison: the aligned passes with everything the two sides disagree about, the image
 budget that runs through the whole document, and the summary (src/py/rdc_ab.py).
 */
module AbDocument {
  import opened Basics
  import opened Sorting
  import opened Decimal
  import opened Occurrence
  import opened Alignment
  import opened AbPair
  import opened AbConstants
  import opened AbShaders
  import opened AbImages

  datatype Member = Member(path: string, status: string, note: string, aFirstEid: int, bFirstEid: int, structure: string,
                           changes: seq<Change>, removed: seq<string>, added: seq<string>, shaders: seq<ShaderRow>,
                           blocks: seq<BlockRow>, images: seq<Image>, counters: Counters)

  /** What `build_document` is asked for. */
  datatype Comparison = Comparison(disk: Disk, a: Bundle, b: Bundle, withImages: bool, detail: int)

  predicate InRange(c: Comparison, row: AbRow) {
    && (row.a.Some? || row.b.Some?)
    && (row.a.Some? ==> row.a.value < |c.a.side.passes|)
    && (row.b.Some? ==> row.b.value < |c.b.side.passes|)
  }

  predicate AllInRange(c: Comparison, rows: seq<AbRow>) {
    forall i | 0 <= i < |rows| :: InRange(c, rows[i])
  }

  predicate IsPair(row: AbRow) {
    row.a.Some? && row.b.Some?
  }

  // ------------------------------------------------------------------ one row of the document

  function StructureOf(p: Pass): string {
    p.kind + ", " + p.structure + ", " + IntText(p.events) + " event(s), eids " + IntText(p.firstEid) + ".."
    + IntText(p.lastEid)
  }

  function KeptOf(a: Bundle, p: Pass): Kept {
    LatestOf(a.readbacks, p.firstEid, p.lastEid)
  }

  /** How many picture pairs of a pass pair differ. */
  ghost function PairNeed(c: Comparison, p: Pass, q: Pass): nat {
    if c.withImages then Need(c.disk, KeptOf(c.a, p), KeptOf(c.b, q), Slots(KeptOf(c.a, p), KeptOf(c.b, q))) else 0
  }

  ghost function PairImages(c: Comparison, p: Pass, q: Pass, budget: nat): seq<Image> {
    if c.withImages then Images(c.disk, KeptOf(c.a, p), KeptOf(c.b, q), budget) else []
  }

  /** Everything about a pass pair, with `budget` decodes left for its pictures. */
  ghost function PairOf(c: Comparison, p: Pass, q: Pass, budget: nat): Member {
    var first, other := p.firstEid, q.firstEid;
    Member("", "", "", first, other, StructureOf(p) + "  |  " + StructureOf(q),
           StructureChanges(p, q, c.a.side.names, c.b.side.names), StateRemoved(c.a, first, c.b, other),
           StateAdded(c.a, first, c.b, other), ShaderRows(StagesAt(c.a, first), StagesAt(c.b, other)),
           BlockRows(BlocksAt(c.a, first), BlocksAt(c.b, other)), PairImages(c, p, q, budget), CompareCounters(c.a, c.b, p, q))
  }

  /** A pass that only one side has: there is nothing to compare it with. */
  function OnlyOne(p: Pass): Member {
    Member("", "", "", 0, 0, StructureOf(p), [], [], [], [], [], [], Counters(0.0, 0.0, 0, 0, 0.0, "not compared"))
  }

  ghost function MemberOf(c: Comparison, row: AbRow, budget: nat): Member
    requires InRange(c, row)
  {
    var m := if IsPair(row) then PairOf(c, c.a.side.passes[row.a.value], c.b.side.passes[row.b.value], budget)
             else OnlyOne(if row.a.Some? then c.a.side.passes[row.a.value] else c.b.side.passes[row.b.value]);
    m.(path := row.path, status := row.status, note := row.note)
  }

  ghost function NeedOf(c: Comparison, row: AbRow): nat
    requires InRange(c, row)
  {
    if IsPair(row) then PairNeed(c, c.a.side.passes[row.a.value], c.b.side.passes[row.b.value]) else 0
  }

  method ComparePair(c: Comparison, p: Pass, q: Pass, budget: nat) returns (member: Member, rest: nat)
    ensures member == PairOf(c, p, q, budget)
    ensures rest == Monus(budget, PairNeed(c, p, q))
  {
    var images, first, other := [], p.firstEid, q.firstEid;
    rest := budget;
    if c.withImages {
      images, rest := CompareImages(c.disk, c.a.readbacks, c.b.readbacks, p, q, budget);
    }
    var shaders := CompareShaders(c.a, c.b, first, other);
    var blocks := CompareCbuffers(c.a, c.b, p, q);
    member := Member("", "", "", first, other, StructureOf(p) + "  |  " + StructureOf(q),
                     StructureChanges(p, q, c.a.side.names, c.b.side.names), StateRemoved(c.a, first, c.b, other),
                     StateAdded(c.a, first, c.b, other), shaders, blocks, images, CompareCounters(c.a, c.b, p, q));
  }

  method CompareRow(c: Comparison, row: AbRow, budget: nat) returns (member: Member, rest: nat)
    requires InRange(c, row)
    ensures member == MemberOf(c, row, budget)
    ensures rest == Monus(budget, NeedOf(c, row))
  {
    if row.a == None || row.b == None {
      member := OnlyOne(if row.a.Some? then c.a.side.passes[row.a.value] else c.b.side.passes[row.b.value]);
      rest := budget;
    } else {
      member, rest := ComparePair(c, c.a.side.passes[row.a.value], c.b.side.passes[row.b.value], budget);
    }
    member := member.(path := row.path, status := row.status, note := row.note);
  }

  // ------------------------------------------------------------------ the document

  function Budget(imageDetail: int): nat {
    if imageDetail > 0 then imageDetail else 0
  }

  function Sum(xs: seq<nat>): nat {
    if xs == [] then 0 else Sum(xs[..|xs| - 1]) + xs[|xs| - 1]
  }

  /** How many picture pairs of each row differ. */
  ghost function Needs(c: Comparison, rows: seq<AbRow>): (needs: seq<nat>)
    requires AllInRange(c, rows)
    ensures |needs| == |rows| && forall i | 0 <= i < |rows| :: needs[i] == NeedOf(c, rows[i])
  {
    seq(|rows|, i requires 0 <= i < |rows| => NeedOf(c, rows[i]))
  }

  /** The budget that the first `i` rows leave. */
  function LeftAt(budget: nat, needs: seq<nat>, i: nat): nat
    requires i <= |needs|
  {
    Monus(budget, Sum(needs[..i]))
  }

  /** What the rows' passes say: the pictures that differ are decoded in document order until the budget is spent. */
  ghost function DocumentOf(c: Comparison, rows: seq<AbRow>): (passes: seq<Member>)
    requires AllInRange(c, rows)
    ensures |passes| == |rows|
  {
    seq(|rows|, i requires 0 <= i < |rows| => MemberOf(c, rows[i], LeftAt(Budget(c.detail), Needs(c, rows), i)))
  }

  lemma DocumentAt(c: Comparison, rows: seq<AbRow>, i: nat)
    requires AllInRange(c, rows) && i < |rows|
    ensures DocumentOf(c, rows)[i] == MemberOf(c, rows[i], LeftAt(Budget(c.detail), Needs(c, rows), i))
  {
  }

  lemma LeftNext(budget: nat, needs: seq<nat>, i: nat)
    requires i < |needs|
    ensures LeftAt(budget, needs, i + 1) == Monus(LeftAt(budget, needs, i), needs[i])
  {
    assert needs[..i + 1][..i] == needs[..i];
  }

  method ComparePasses(c: Comparison, rows: seq<AbRow>) returns (passes: seq<Member>)
    requires AllInRange(c, rows)
    ensures passes == DocumentOf(c, rows)
  {
    ghost var needs, whole := Needs(c, rows), DocumentOf(c, rows);
    passes := [];
    var rest := Budget(c.detail);
    for i: nat := 0 to |rows|
      invariant passes == whole[..i] && rest == LeftAt(Budget(c.detail), needs, i)
    {
      LeftNext(Budget(c.detail), needs, i);
      TakeNext(whole, i);
      var member;
      member, rest := CompareRow(c, rows[i], rest);
      assert member == whole[i] by {
        DocumentAt(c, rows, i);
      }
      passes := passes + [member];
    }
    assert whole[..|rows|] == whole;
  }

  datatype Summary = Summary(same: nat, added: nat, removed: nat, structureChanges: nat, stateChanges: nat,
                             constantsChanged: nat, shadersDifferent: nat, imagesCompared: nat,
                             imagesNotCompared: nat, countersCompared: nat, cheaper: nat, dearer: nat)

  /** The blocks whose values moved. */
  function MovedBlocks(blocks: seq<BlockRow>): nat {
    if blocks == [] then 0 else MovedBlocks(blocks[..|blocks| - 1]) + One(blocks[|blocks| - 1].values != [])
  }

  function DifferentShaders(shaders: seq<ShaderRow>): nat {
    if shaders == [] then 0
    else DifferentShaders(shaders[..|shaders| - 1]) + One(shaders[|shaders| - 1].verdict == "different")
  }

  /** What one pass contributes to the summary. */
  function Contribution(m: Member): Summary {
    Summary(One(m.status == "same"), One(m.status == "added"), One(m.status == "removed"), One(m.changes != []),
            One(m.removed != [] || m.added != []), MovedBlocks(m.blocks), DifferentShaders(m.shaders),
            ComparedImages(m.images), Skipped(m.images), One(m.counters.verdict != "not compared"),
            One(m.counters.verdict == "cheaper"), One(m.counters.verdict == "dearer"))
  }

  function Add(x: Summary, y: Summary): Summary {
    Summary(x.same + y.same, x.added + y.added, x.removed + y.removed, x.structureChanges + y.structureChanges,
            x.stateChanges + y.stateChanges, x.constantsChanged + y.constantsChanged,
            x.shadersDifferent + y.shadersDifferent, x.imagesCompared + y.imagesCompared,
            x.imagesNotCompared + y.imagesNotCompared, x.countersCompared + y.countersCompared,
            x.cheaper + y.cheaper, x.dearer + y.dearer)
  }

  function Summarize(passes: seq<Member>): Summary {
    if passes == [] then Summary(0, 0, 0, 0, 0, 0, 0, 0, 0, 0, 0, 0)
    else Add(Summarize(passes[..|passes| - 1]), Contribution(passes[|passes| - 1]))
  }

  method BuildDocument(c: Comparison) returns (passes: seq<Member>, summary: Summary, ghost rows: seq<AbRow>)
    ensures AlignmentRows(SideKeysOf(c.a.side), SideKeysOf(c.b.side), rows) && AllInRange(c, rows)
    ensures passes == DocumentOf(c, rows) && summary == Summarize(passes)
  {
    var aligned := Align(c.a.side, c.b.side);
    rows := aligned;
    AlignedInRange(c, aligned);
    passes := ComparePasses(c, aligned);
    summary := Summarize(passes);
  }

  lemma AlignedInRange(c: Comparison, rows: seq<AbRow>)
    requires AlignmentRows(SideKeysOf(c.a.side), SideKeysOf(c.b.side), rows)
    ensures AllInRange(c, rows)
  {
    RowsAreInRange(SideKeysOf(c.a.side), SideKeysOf(c.b.side), rows);
  }

  lemma RowsAreInRange(a: Keys, b: Keys, rows: seq<AbRow>)
    requires AlignmentRows(a, b, rows)
    ensures forall i | 0 <= i < |rows| ::
              && (rows[i].a.Some? || rows[i].b.Some?)
              && (rows[i].a.Some? ==> rows[i].a.value < |a.paths|)
              && (rows[i].b.Some? ==> rows[i].b.value < |b.paths|)
  {
    AlignedIsOneToOne(a, b);
    forall i | |a.paths| <= i < |rows|
      ensures rows[i].a == None && rows[i].b.Some? && rows[i].b.value < |b.paths|
    {
      LaterRow(a, b, rows, i);
    }
  }

  /** A row behind those of A is one of B's unmatched passes. */
  lemma LaterRow(a: Keys, b: Keys, rows: seq<AbRow>, i: nat)
    requires AlignmentRows(a, b, rows) && |a.paths| <= i < |rows|
    ensures rows[i].a == None && rows[i].b.Some? && rows[i].b.value < |b.paths|
  {
    RowInTail(rows, |a.paths|, i, b.paths, Untaken(Aligned(a, b), |b.paths|));
  }

  lemma RowInTail(rows: seq<AbRow>, m: nat, i: nat, paths: seq<string>, list: seq<nat>)
    requires m <= i < |rows| && forall t | 0 <= t < |list| :: list[t] < |paths|
    requires rows[m..] == AddedOf(paths, list)
    ensures |rows| == m + |list| && rows[i] == RowOfB(paths[list[i - m]], list[i - m])
  {
    assert rows[i] == rows[m..][i - m];
  }

  // ------------------------------------------------------------------ the pictures of the whole document

  function TotalDecoded(passes: seq<Member>): nat {
    if passes == [] then 0 else TotalDecoded(passes[..|passes| - 1]) + Decoded(passes[|passes| - 1].images)
  }

  function TotalSkipped(passes: seq<Member>): nat {
    if passes == [] then 0 else TotalSkipped(passes[..|passes| - 1]) + Skipped(passes[|passes| - 1].images)
  }

  /** The pictures that were compared, byte for byte or pixel by pixel. */
  function TotalCompared(passes: seq<Member>): nat {
    if passes == [] then 0 else TotalCompared(passes[..|passes| - 1]) + TrulyCompared(passes[|passes| - 1].images)
  }

  /** One pass's pictures: of the pairs that differ those the budget allows are decoded, the others skipped. */
  predicate Spent(images: seq<Image>, need: nat, budget: nat) {
    && Decoded(images) == Least(need, budget) && Skipped(images) == Monus(need, budget)
    && ComparedImages(images) == TrulyCompared(images) + Skipped(images)
  }

  lemma MemberSpends(c: Comparison, row: AbRow, budget: nat)
    requires InRange(c, row)
    ensures Spent(MemberOf(c, row, budget).images, NeedOf(c, row), budget)
  {
    if c.withImages && IsPair(row) {
      var left, right := KeptOf(c.a, c.a.side.passes[row.a.value]), KeptOf(c.b, c.b.side.passes[row.b.value]);
      BudgetIsSpent(c.disk, left, right, Slots(left, right), budget);
      SkippedCountsAsCompared(c.disk, left, right, Slots(left, right), budget);
    }
  }

  predicate AllSpent(passes: seq<Member>, needs: seq<nat>, budget: nat)
    requires |passes| == |needs|
  {
    forall i: nat | i < |passes| :: Spent(passes[i].images, needs[i], LeftAt(budget, needs, i))
  }

  lemma SpentPrefix(passes: seq<Member>, needs: seq<nat>, budget: nat, n: nat)
    requires |passes| == |needs| && AllSpent(passes, needs, budget) && n <= |passes|
    ensures AllSpent(passes[..n], needs[..n], budget)
  {
    forall i: nat | i < n ensures LeftAt(budget, needs[..n], i) == LeftAt(budget, needs, i) {
      assert needs[..n][..i] == needs[..i];
    }
  }

  lemma {:induction false} PicturesTotal(passes: seq<Member>, needs: seq<nat>, budget: nat)
    requires |passes| == |needs| && AllSpent(passes, needs, budget)
    ensures TotalDecoded(passes) == Least(Sum(needs), budget) && TotalSkipped(passes) == Monus(Sum(needs), budget)
    ensures Summarize(passes).imagesNotCompared == TotalSkipped(passes)
    ensures Summarize(passes).imagesCompared == TotalCompared(passes) + TotalSkipped(passes)
  {
    if passes != [] {
      var n := |passes| - 1;
      SpentPrefix(passes, needs, budget, n);
      PicturesTotal(passes[..n], needs[..n], budget);
      assert Spent(passes[n].images, needs[n], LeftAt(budget, needs, n));
    }
  }

  /** The pictures that differ are decoded while the budget lasts and skipped from then on, and what is skipped is
      counted as compared all the same: the summary's two picture counts overlap exactly when more pairs differ than
      the budget allows. */
  lemma SkippedAreCounted(c: Comparison, rows: seq<AbRow>)
    requires AllInRange(c, rows)
    ensures var passes, need := DocumentOf(c, rows), Sum(Needs(c, rows));
            && TotalDecoded(passes) == Least(need, Budget(c.detail)) && TotalSkipped(passes) == Monus(need, Budget(c.detail))
            && Summarize(passes).imagesNotCompared == TotalSkipped(passes)
            && Summarize(passes).imagesCompared == TotalCompared(passes) + TotalSkipped(passes)
            && (Summarize(passes).imagesCompared > TotalCompared(passes) <==> need > Budget(c.detail))
  {
    forall i: nat | i < |rows|
      ensures Spent(DocumentOf(c, rows)[i].images, Needs(c, rows)[i], LeftAt(Budget(c.detail), Needs(c, rows), i))
    {
      DocumentAt(c, rows, i);
      MemberSpends(c, rows[i], LeftAt(Budget(c.detail), Needs(c, rows), i));
    }
    PicturesTotal(DocumentOf(c, rows), Needs(c, rows), Budget(c.detail));
  }

  /** A bundle of one pass that wrote one picture. */
  function OnePicture(path: FilePath): Bundle {
    var p := Pass("graphics", "draws", 1, 1, 0, "0", [], 1, 1);
    Bundle(Side([], [p], map[]), map[], map[], map[], [], [Readback(1, 0, path)])
  }

  lemma OneKept(path: FilePath)
    ensures KeptOf(OnePicture(path), OnePicture(path).side.passes[0]) == map[0 := Readback(1, 0, path)]
  {
    var list := [Readback(1, 0, path)];
    assert list[..0] == [];
    assert LatestOf(list, 1, 1) == LatestOf([], 1, 1)[0 := list[0]];
  }

  lemma OneSlot(left: Kept, right: Kept)
    requires left.Keys == right.Keys == {0}
    ensures Slots(left, right) == [0]
  {
    NatsOrder();
    StrictIsUnique(NatLess, Slots(left, right), [0]);
  }

  /** The one pair of two such bundles: it differs, and with nothing to decode it on it is skipped. */
  lemma OnePair(disk: Disk, one: FilePath, other: FilePath)
    requires one in disk.bytes && other in disk.bytes && disk.bytes[one] != disk.bytes[other]
    ensures var a, b := OnePicture(one), OnePicture(other);
            && PairNeed(Comparison(disk, a, b, true, 0), a.side.passes[0], b.side.passes[0]) == 1
            && PairImages(Comparison(disk, a, b, true, 0), a.side.passes[0], b.side.passes[0], 0) == [Image(0, "different", false, true)]
  {
    OneKept(one);
    OneKept(other);
    var left, right := map[0 := Readback(1, 0, one)], map[0 := Readback(1, 0, other)];
    OneSlot(left, right);
    var slots: seq<nat> := [0];
    assert slots[..0] == [];
    assert Differs(disk, left, right, 0);
    assert ImagesOf(disk, left, right, slots, 0) == ImagesOf(disk, left, right, [], 0) + [ImageOf(disk, left, right, 0, 0)];
  }

  /** Two such bundles with different pictures and no decode allowed: the one pair is compared and not compared. */
  lemma CountedTwice(disk: Disk, one: FilePath, other: FilePath, rows: seq<AbRow>)
    requires one in disk.bytes && other in disk.bytes && disk.bytes[one] != disk.bytes[other]
    requires AlignmentRows(SideKeysOf(OnePicture(one).side), SideKeysOf(OnePicture(other).side), rows)
    ensures var c := Comparison(disk, OnePicture(one), OnePicture(other), true, 0);
            AllInRange(c, rows)
            && Summarize(DocumentOf(c, rows)).imagesCompared == Summarize(DocumentOf(c, rows)).imagesNotCompared == 1
            && TotalCompared(DocumentOf(c, rows)) == 0
  {
    var c := Comparison(disk, OnePicture(one), OnePicture(other), true, 0);
    AlignedInRange(c, rows);
    SelfRows(SideKeysOf(c.a.side), rows);
    OnePair(disk, one, other);
    OneRow(c, rows, Image(0, "different", false, true));
  }

  lemma OneRow(c: Comparison, rows: seq<AbRow>, image: Image)
    requires |rows| == 1 && AllInRange(c, rows) && IsPair(rows[0]) && image.skipped && Budget(c.detail) == 0
    requires var p, q := c.a.side.passes[rows[0].a.value], c.b.side.passes[rows[0].b.value];
             PairNeed(c, p, q) == 1 && PairImages(c, p, q, 0) == [image]
    ensures Summarize(DocumentOf(c, rows)).imagesCompared == Summarize(DocumentOf(c, rows)).imagesNotCompared == 1
    ensures TotalCompared(DocumentOf(c, rows)) == 0
  {
    SkippedAreCounted(c, rows);
    OneNeed(c, rows);
    assert DocumentOf(c, rows)[0].images == [image] by {
      DocumentAt(c, rows, 0);
    }
    NoneCompared(DocumentOf(c, rows), image);
  }

  lemma OneNeed(c: Comparison, rows: seq<AbRow>)
    requires |rows| == 1 && AllInRange(c, rows) && NeedOf(c, rows[0]) == 1
    ensures Sum(Needs(c, rows)) == 1
  {
    var needs := Needs(c, rows);
    assert needs == [1] && needs[..0] == [] && Sum(needs) == Sum(needs[..0]) + 1;
  }

  lemma {:induction false} NoneCompared(passes: seq<Member>, image: Image)
    requires |passes| == 1 && passes[0].images == [image] && image.skipped
    ensures TotalCompared(passes) == 0
  {
    assert passes[..0] == [] && [image][..0] == [];
    assert TrulyCompared([image]) == TrulyCompared([image][..0]);
    assert TotalCompared(passes) == TotalCompared(passes[..0]) + TrulyCompared(passes[0].images);
  }

  // ------------------------------------------------------------------ the document the other way round

  /** The same bundles, asked for the other way round. */
  function Back(c: Comparison): Comparison {
    c.(a := c.b, b := c.a)
  }

  /** The sides of a member exchanged. */
  ghost predicate MemberSwaps(forth: Member, back: Member) {
    && back.aFirstEid == forth.bFirstEid && back.bFirstEid == forth.aFirstEid
    && back.removed == forth.added && back.added == forth.removed && back.changes == Mirror(forth.changes)
    && |back.blocks| == |forth.blocks|
    && (forall k | 0 <= k < |forth.blocks| :: BlockSwaps(forth.blocks[k], back.blocks[k]))
    && |back.images| == |forth.images|
    && (forall k | 0 <= k < |forth.images| :: ImageSwaps(forth.images[k], back.images[k]))
    && CostsSwap(forth.counters, back.counters)
  }

  lemma ImagesSwapWith(c: Comparison, p: Pass, q: Pass, budget: nat, budgetBack: nat)
    ensures var forth, back := PairImages(c, p, q, budget), PairImages(Back(c), q, p, budgetBack);
            |back| == |forth| && forall k | 0 <= k < |forth| :: ImageSwaps(forth[k], back[k])
  {
    if c.withImages {
      ImagesSwap(c.disk, KeptOf(c.a, p), KeptOf(c.b, q), budget, budgetBack);
    }
  }

  /** A pass pair compared the other way round, whatever its pictures may cost. */
  lemma PairSwaps(c: Comparison, p: Pass, q: Pass, budget: nat, budgetBack: nat)
    ensures MemberSwaps(PairOf(c, p, q, budget), PairOf(Back(c), q, p, budgetBack))
    ensures StagesSwap(StagesAt(c.a, p.firstEid), StagesAt(c.b, q.firstEid),
                       PairOf(c, p, q, budget).shaders, PairOf(Back(c), q, p, budgetBack).shaders)
  {
    DifferingMirrors(PASS_FIELDS, PassTexts(p, c.a.side.names), PassTexts(q, c.b.side.names));
    BlocksSwap(BlocksAt(c.a, p.firstEid), BlocksAt(c.b, q.firstEid));
    RowsSwap(StagesAt(c.a, p.firstEid), StagesAt(c.b, q.firstEid));
    ImagesSwapWith(c, p, q, budget, budgetBack);
    CountersSwap(c.a, c.b, p, q);
  }

  /** Two members with their sides exchanged, and their shader stages too as far as these are labelled. */
  ghost predicate Exchanged(c: Comparison, forth: Member, back: Member) {
    && MemberSwaps(forth, back)
    && StagesSwap(StagesAt(c.a, forth.aFirstEid), StagesAt(c.b, forth.bFirstEid), forth.shaders, back.shaders)
  }

  lemma MembersSwap(c: Comparison, row: AbRow, budget: nat, rowBack: AbRow, budgetBack: nat)
    requires InRange(c, row) && IsPair(row) && InRange(Back(c), rowBack) && rowBack.a == row.b && rowBack.b == row.a
    ensures Exchanged(c, MemberOf(c, row, budget), MemberOf(Back(c), rowBack, budgetBack))
  {
    PairSwaps(c, c.a.side.passes[row.a.value], c.b.side.passes[row.b.value], budget, budgetBack);
  }

  lemma PairedRowSwaps(a: Keys, b: Keys, rows: seq<AbRow>, rowsBack: seq<AbRow>, i: nat)
    requires AlignmentRows(a, b, rows) && AlignmentRows(b, a, rowsBack)
    requires i < |rows| && rows[i].a.Some? && rows[i].b.Some?
    ensures rows[i].b.value < |rowsBack| && rows[i].a == Some(i)
    ensures rowsBack[rows[i].b.value].a == rows[i].b && rowsBack[rows[i].b.value].b == rows[i].a
  {
    AlignedIsSymmetric(a, b);
    AlignedIsOneToOne(a, b);
    AlignedIsOneToOne(b, a);
    var pairs := Aligned(a, b);
    if i >= |a.paths| {
      LaterRow(a, b, rows, i);
    } else {
      var j := rows[i].b.value;
      assert RowOfA(pairs, a.paths[i], Evidence(a, b, i), i, rows[i]);
      assert (i, j) in pairs && (j, i) in Aligned(b, a);
      assert RowOfA(Aligned(b, a), b.paths[j], Evidence(b, a, j), j, rowsBack[j]);
    }
  }

  /** Every pass pair of the document is a pair of the document made the other way round, with its sides exchanged;
      a stage's row is exchanged exactly when the stage is not an empty object that one side alone binds. */
  lemma DocumentsSwap(c: Comparison, rows: seq<AbRow>, rowsBack: seq<AbRow>, i: nat)
    requires AlignmentRows(SideKeysOf(c.a.side), SideKeysOf(c.b.side), rows) && AllInRange(c, rows)
    requires AlignmentRows(SideKeysOf(c.b.side), SideKeysOf(c.a.side), rowsBack) && AllInRange(Back(c), rowsBack)
    requires i < |rows| && IsPair(rows[i])
    ensures var j := rows[i].b.value;
            && j < |rowsBack| && rowsBack[j].a == rows[i].b && rowsBack[j].b == rows[i].a
            && Exchanged(c, DocumentOf(c, rows)[i], DocumentOf(Back(c), rowsBack)[j])
  {
    PairedRowSwaps(SideKeysOf(c.a.side), SideKeysOf(c.b.side), rows, rowsBack, i);
    MembersAtSwap(c, rows, rowsBack, i, rows[i].b.value);
  }

  lemma MembersAtSwap(c: Comparison, rows: seq<AbRow>, rowsBack: seq<AbRow>, i: nat, j: nat)
    requires AllInRange(c, rows) && AllInRange(Back(c), rowsBack) && i < |rows| && j < |rowsBack|
    requires IsPair(rows[i]) && rowsBack[j].a == rows[i].b && rowsBack[j].b == rows[i].a
    ensures Exchanged(c, DocumentOf(c, rows)[i], DocumentOf(Back(c), rowsBack)[j])
  {
    DocumentAt(c, rows, i);
    DocumentAt(Back(c), rowsBack, j);
    MembersSwap(c, rows[i], LeftAt(Budget(c.detail), Needs(c, rows), i),
                rowsBack[j], LeftAt(Budget(c.detail), Needs(Back(c), rowsBack), j));
  }

  /** A pass that one document calls removed is one that the other calls added. */
  lemma RemovedIsAdded(a: Keys, b: Keys, rows: seq<AbRow>, rowsBack: seq<AbRow>, i: nat) returns (k: nat)
    requires AlignmentRows(a, b, rows) && AlignmentRows(b, a, rowsBack)
    requires i < |a.paths| && rows[i].b == None
    ensures rows[i].status == "removed" && k < |rowsBack| && rowsBack[k] == RowOfB(a.paths[i], i)
  {
    AlignedIsSymmetric(a, b);
    SwapSides(Aligned(a, b));
    assert RowOfA(Aligned(a, b), a.paths[i], Evidence(a, b, i), i, rows[i]);
    k := AddedRow(b, a, rowsBack, i);
  }

  lemma AddedRow(a: Keys, b: Keys, rows: seq<AbRow>, j: nat) returns (k: nat)
    requires AlignmentRows(a, b, rows) && j < |b.paths| && j !in Rights(Aligned(a, b))
    ensures k < |rows| && rows[k] == RowOfB(b.paths[j], j)
  {
    var rest := Untaken(Aligned(a, b), |b.paths|);
    var t := IndexIn(rest, j);
    k := |a.paths| + t;
    RowInTail(rows, |a.paths|, k, b.paths, rest);
  }

  lemma IndexIn(list: seq<nat>, x: nat) returns (t: nat)
    requires x in list
    ensures t < |list| && list[t] == x
  {
    t :| 0 <= t < |list| && list[t] == x;
  }

  // ------------------------------------------------------------------ a bundle against itself

  /** Every picture of the bundle can be read back. */
  predicate Readable(disk: Disk, a: Bundle) {
    forall i | 0 <= i < |a.readbacks| :: a.readbacks[i].path in disk.bytes
  }

  lemma {:induction false} LatestIsListed(list: seq<Readback>, first: int, last: int)
    ensures forall slot | slot in LatestOf(list, first, last) :: LatestOf(list, first, last)[slot] in list
  {
    if list != [] {
      LatestIsListed(list[..|list| - 1], first, last);
    }
  }

  /** Nothing in a member differs. */
  ghost predicate NoDifference(m: Member) {
    && m.changes == [] && m.removed == [] && m.added == []
    && (forall k | 0 <= k < |m.shaders| ::
          m.shaders[k].verdict in ["same", "no-hash-in-this-bundle"] && m.shaders[k].changes == [])
    && (forall k | 0 <= k < |m.blocks| :: m.blocks[k].values == [])
    && (forall k | 0 <= k < |m.images| ::
          m.images[k].verdict == "identical" && !m.images[k].decoded && !m.images[k].skipped)
    && m.counters.verdict in ["same", "not compared"]
  }

  predicate AgainstItself(c: Comparison) {
    c.a == c.b && Readable(c.disk, c.a)
  }

  /** The pictures of a pass against itself are all identical when they can be read. */
  lemma SelfPictures(c: Comparison, p: Pass, budget: nat)
    requires AgainstItself(c)
    ensures var images := PairImages(c, p, p, budget);
            forall i | 0 <= i < |images| :: images[i].verdict == "identical" && !images[i].decoded && !images[i].skipped
  {
    if c.withImages {
      var own := KeptOf(c.a, p);
      var slots := Slots(own, own);
      LatestIsListed(c.a.readbacks, p.firstEid, p.lastEid);
      ImagesFit(c.disk, own, own, slots, budget);
      forall i | 0 <= i < |slots| ensures !OneSided(own, own, slots[i]) && !Differs(c.disk, own, own, slots[i]) {
        assert slots[i] in slots;
      }
    }
  }

  lemma SelfPair(c: Comparison, p: Pass, budget: nat)
    requires AgainstItself(c)
    ensures NoDifference(PairOf(c, p, p, budget))
  {
    DifferingMirrors(PASS_FIELDS, PassTexts(p, c.a.side.names), PassTexts(p, c.a.side.names));
    NoStateMissing(STATE_KINDS, c.a, p.firstEid);
    SelfShaders(StagesAt(c.a, p.firstEid));
    SelfBlocks(BlocksAt(c.a, p.firstEid));
    SelfPictures(c, p, budget);
    SelfCounters(c.a, p);
  }

  lemma {:induction false} NothingMoved(blocks: seq<BlockRow>)
    requires forall k | 0 <= k < |blocks| :: blocks[k].values == []
    ensures MovedBlocks(blocks) == 0
  {
    if blocks != [] {
      NothingMoved(blocks[..|blocks| - 1]);
    }
  }

  lemma {:induction false} NoneDifferent(shaders: seq<ShaderRow>)
    requires forall k | 0 <= k < |shaders| :: shaders[k].verdict in ["same", "no-hash-in-this-bundle"]
    ensures DifferentShaders(shaders) == 0
  {
    if shaders != [] {
      var verdict := shaders[|shaders| - 1].verdict;
      assert "same"[0] != "different"[0] && "no-hash-in-this-bundle"[0] != "different"[0];
      NoneDifferent(shaders[..|shaders| - 1]);
    }
  }

  ghost predicate NothingFound(s: Summary) {
    && s.added == s.removed == s.structureChanges == s.stateChanges == 0
    && s.constantsChanged == s.shadersDifferent == s.imagesNotCompared == s.cheaper == s.dearer == 0
  }

  lemma NothingContributed(m: Member)
    requires NoDifference(m) && m.status == "same"
    ensures NothingFound(Contribution(m)) && Contribution(m).same == 1
  {
    NothingMoved(m.blocks);
    NoneDifferent(m.shaders);
    NothingToDecode(m.images);
  }

  lemma {:induction false} SummaryOfNothing(passes: seq<Member>)
    requires forall i | 0 <= i < |passes| :: NoDifference(passes[i]) && passes[i].status == "same"
    ensures NothingFound(Summarize(passes)) && Summarize(passes).same == |passes|
  {
    if passes != [] {
      SummaryOfNothing(passes[..|passes| - 1]);
      NothingContributed(passes[|passes| - 1]);
    }
  }

  lemma SelfMember(c: Comparison, row: AbRow, budget: nat)
    requires AgainstItself(c) && InRange(c, row) && IsPair(row) && row.a == row.b && row.status == "same"
    ensures NoDifference(MemberOf(c, row, budget)) && MemberOf(c, row, budget).status == "same"
  {
    SelfPair(c, c.a.side.passes[row.a.value], budget);
  }

  lemma SelfMembers(c: Comparison, rows: seq<AbRow>)
    requires AgainstItself(c) && AllInRange(c, rows)
    requires forall i | 0 <= i < |rows| :: IsPair(rows[i]) && rows[i].a == rows[i].b && rows[i].status == "same"
    ensures forall i | 0 <= i < |rows| :: NoDifference(DocumentOf(c, rows)[i]) && DocumentOf(c, rows)[i].status == "same"
  {
    forall i: nat | i < |rows| ensures NoDifference(DocumentOf(c, rows)[i]) && DocumentOf(c, rows)[i].status == "same" {
      DocumentAt(c, rows, i);
      SelfMember(c, rows[i], LeftAt(Budget(c.detail), Needs(c, rows), i));
    }
  }

  /** `replaydiff` of one bundle against itself finds nothing, however its passes were aligned. */
  lemma SelfComparison(c: Comparison, rows: seq<AbRow>)
    requires AgainstItself(c) && AlignmentRows(SideKeysOf(c.a.side), SideKeysOf(c.b.side), rows) && AllInRange(c, rows)
    ensures |DocumentOf(c, rows)| == |c.a.side.passes|
    ensures forall i | 0 <= i < |rows| :: NoDifference(DocumentOf(c, rows)[i])
    ensures NothingFound(Summarize(DocumentOf(c, rows)))
    ensures Summarize(DocumentOf(c, rows)).same == |c.a.side.passes|
  {
    SelfRows(SideKeysOf(c.a.side), rows);
    SelfMembers(c, rows);
    SummaryOfNothing(DocumentOf(c, rows));
  }
}
