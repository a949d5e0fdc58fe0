/** The pictures of an aligned pass pair, slot by slot, and the budget they are decoded on (src/py/rdc_ab.py). */
module AbImages {
  import opened Basics
  import opened Sorting
  import opened Alignment
  import opened AbPair

  /** The bytes behind every path that can be read, and the verdict of decoding two of them. */
  datatype Disk = Disk(bytes: map<string, seq<bv8>>, pixels: (string, string) -> string)

  /** The readback that is kept of each slot. */
  type Kept = map<nat, Readback>

  datatype Image = Image(slot: nat, verdict: string, decoded: bool, skipped: bool)

  // ------------------------------------------------------------------ readbacks

  /** The last readback of each slot inside the range, in list order. */
  method LastReadbacks(list: seq<Readback>, first: int, last: int) returns (out: Kept)
    ensures out == LatestOf(list, first, last)
  {
    out := map[];
    for i: nat := 0 to |list|
      invariant out == LatestOf(list[..i], first, last)
    {
      assert list[..i + 1][..i] == list[..i];
      if first <= list[i].eid <= last {
        out := out[list[i].slot := list[i]];
      }
    }
    assert list[..|list|] == list;
  }

  function LatestOf(list: seq<Readback>, first: int, last: int): Kept {
    if list == [] then map[]
    else
      var n := |list| - 1;
      var before := LatestOf(list[..n], first, last);
      if first <= list[n].eid <= last then before[list[n].slot := list[n]] else before
  }

  /** In a list sorted by event the kept readback of a slot is one of its own and the latest in range. */
  lemma {:induction false} LatestIsLast(list: seq<Readback>, first: int, last: int, slot: nat)
    requires forall i, j | 0 <= i < j < |list| :: list[i].eid <= list[j].eid
    ensures slot in LatestOf(list, first, last)
            <==> exists i | 0 <= i < |list| :: list[i].slot == slot && first <= list[i].eid <= last
    ensures slot in LatestOf(list, first, last) ==>
              var kept := LatestOf(list, first, last)[slot];
              && kept in list && kept.slot == slot && first <= kept.eid <= last
              && forall i | 0 <= i < |list| && list[i].slot == slot && first <= list[i].eid <= last ::
                   list[i].eid <= kept.eid
  {
    if list != [] {
      var n := |list| - 1;
      LatestIsLast(list[..n], first, last, slot);
      if list[n].slot == slot && first <= list[n].eid <= last {
        assert LatestOf(list, first, last)[slot] == list[n];
      } else {
        assert slot in LatestOf(list, first, last) <==> slot in LatestOf(list[..n], first, last);
        forall i | 0 <= i < |list| && list[i].slot == slot && first <= list[i].eid <= last
          ensures i < n && list[..n][i] == list[i]
        {
        }
      }
    }
  }

  // ------------------------------------------------------------------ one slot

  function PathAt(kept: Kept, slot: nat): string {
    if slot in kept then kept[slot].path else ""
  }

  /** Both files can be read and hold the same bytes. */
  predicate SameBytes(disk: Disk, one: string, other: string) {
    one in disk.bytes && other in disk.bytes && disk.bytes[one] == disk.bytes[other]
  }

  predicate OneSided(left: Kept, right: Kept, slot: nat) {
    PathAt(left, slot) == "" || PathAt(right, slot) == ""
  }

  /** A pair that has to be decoded to be told apart. */
  predicate Differs(disk: Disk, left: Kept, right: Kept, slot: nat) {
    !OneSided(left, right, slot) && !SameBytes(disk, PathAt(left, slot), PathAt(right, slot))
  }

  /** The row of a slot, with `budget` decodes left. */
  function ImageOf(disk: Disk, left: Kept, right: Kept, slot: nat, budget: nat): Image {
    if OneSided(left, right, slot) then
      Image(slot, if PathAt(left, slot) != "" then "only-in-a" else "only-in-b", false, false)
    else if !Differs(disk, left, right, slot) then Image(slot, "identical", false, false)
    else if budget == 0 then Image(slot, "different", false, true)
    else Image(slot, disk.pixels(PathAt(left, slot), PathAt(right, slot)), true, false)
  }

  function Monus(a: nat, b: nat): nat {
    if b < a then a - b else 0
  }

  function One(holds: bool): nat {
    if holds then 1 else 0
  }

  /** One slot's row: identical bytes cost nothing, a decode takes one off the budget while it lasts. */
  method CompareSlot(disk: Disk, left: Kept, right: Kept, slot: nat, budget: nat) returns (image: Image, rest: nat)
    ensures image == ImageOf(disk, left, right, slot, budget)
    ensures rest == Monus(budget, One(Differs(disk, left, right, slot)))
  {
    rest := budget;
    var one, other := PathAt(left, slot), PathAt(right, slot);
    if one == "" || other == "" {
      image := Image(slot, if one != "" then "only-in-a" else "only-in-b", false, false);
    } else if SameBytes(disk, one, other) {
      image := Image(slot, "identical", false, false);
    } else if rest == 0 {
      image := Image(slot, "different", false, true);
    } else {
      rest := rest - 1;
      image := Image(slot, disk.pixels(one, other), true, false);
    }
  }

  // ------------------------------------------------------------------ all slots

  /** Every slot either side wrote, in order. */
  ghost function Slots(left: Kept, right: Kept): (slots: seq<nat>)
    ensures Strict(NatLess, slots) && forall s :: s in slots <==> s in left || s in right
  {
    NatsOrder();
    Sorted(NatLess, left.Keys + right.Keys)
  }

  /** How many of the slots have a pair that differs. */
  function Need(disk: Disk, left: Kept, right: Kept, slots: seq<nat>): nat {
    if slots == [] then 0
    else Need(disk, left, right, slots[..|slots| - 1]) + One(Differs(disk, left, right, slots[|slots| - 1]))
  }

  /** The rows of the slots, one after the other: a pair finds what those before it left of the budget. */
  function ImagesOf(disk: Disk, left: Kept, right: Kept, slots: seq<nat>, budget: nat): (images: seq<Image>)
    ensures |images| == |slots|
  {
    if slots == [] then []
    else
      var n := |slots| - 1;
      ImagesOf(disk, left, right, slots[..n], budget)
      + [ImageOf(disk, left, right, slots[n], Monus(budget, Need(disk, left, right, slots[..n])))]
  }

  ghost function Images(disk: Disk, left: Kept, right: Kept, budget: nat): seq<Image> {
    ImagesOf(disk, left, right, Slots(left, right), budget)
  }

  lemma SlotsNext(disk: Disk, left: Kept, right: Kept, slots: seq<nat>, i: nat, budget: nat)
    requires i < |slots|
    ensures Need(disk, left, right, slots[..i + 1])
            == Need(disk, left, right, slots[..i]) + One(Differs(disk, left, right, slots[i]))
    ensures ImagesOf(disk, left, right, slots[..i + 1], budget)
            == ImagesOf(disk, left, right, slots[..i], budget)
               + [ImageOf(disk, left, right, slots[i], Monus(budget, Need(disk, left, right, slots[..i])))]
  {
    assert slots[..i + 1][..i] == slots[..i];
  }

  /** The rows of the given slots, one after the other, on one budget. */
  method CompareSlots(disk: Disk, left: Kept, right: Kept, slots: seq<nat>, budget: nat)
    returns (images: seq<Image>, rest: nat)
    ensures images == ImagesOf(disk, left, right, slots, budget)
    ensures rest == Monus(budget, Need(disk, left, right, slots))
  {
    images, rest := [], budget;
    for i: nat := 0 to |slots|
      invariant images == ImagesOf(disk, left, right, slots[..i], budget)
      invariant rest == Monus(budget, Need(disk, left, right, slots[..i]))
    {
      SlotsNext(disk, left, right, slots, i, budget);
      var image;
      image, rest := CompareSlot(disk, left, right, slots[i], rest);
      images := images + [image];
    }
    assert slots[..|slots|] == slots;
  }

  /** One pass pair's pictures, slot by slot, paid for out of `budget`. */
  method CompareImages(disk: Disk, a: seq<Readback>, b: seq<Readback>, p: Pass, q: Pass, budget: nat)
    returns (images: seq<Image>, rest: nat)
    ensures var left, right := LatestOf(a, p.firstEid, p.lastEid), LatestOf(b, q.firstEid, q.lastEid);
            images == Images(disk, left, right, budget)
            && rest == Monus(budget, Need(disk, left, right, Slots(left, right)))
  {
    var left := LastReadbacks(a, p.firstEid, p.lastEid);
    var right := LastReadbacks(b, q.firstEid, q.lastEid);
    NatsOrder();
    var slots := SortedList(NatLess, left.Keys + right.Keys);
    images, rest := CompareSlots(disk, left, right, slots, budget);
  }

  // ------------------------------------------------------------------ what the rows and their counts mean

  function Decoded(images: seq<Image>): nat {
    if images == [] then 0 else Decoded(images[..|images| - 1]) + One(images[|images| - 1].decoded)
  }

  function Skipped(images: seq<Image>): nat {
    if images == [] then 0 else Skipped(images[..|images| - 1]) + One(images[|images| - 1].skipped)
  }

  /** What the summary counts as compared. */
  function ComparedImages(images: seq<Image>): nat {
    if images == [] then 0
    else ComparedImages(images[..|images| - 1]) + One(images[|images| - 1].verdict in ["identical", "different"])
  }

  /** What was compared: byte for byte, or pixel by pixel. */
  function TrulyCompared(images: seq<Image>): nat {
    if images == [] then 0
    else
      var last := images[|images| - 1];
      TrulyCompared(images[..|images| - 1]) + One(last.verdict in ["identical", "different"] && !last.skipped)
  }

  /** What a row says of its slot, whatever the budget was. */
  predicate ImageFits(disk: Disk, left: Kept, right: Kept, image: Image) {
    && (OneSided(left, right, image.slot) ==>
          !image.decoded && !image.skipped
          && image.verdict == if PathAt(left, image.slot) != "" then "only-in-a" else "only-in-b")
    && (!OneSided(left, right, image.slot) && !Differs(disk, left, right, image.slot) ==>
          !image.decoded && !image.skipped && image.verdict == "identical")
    && (Differs(disk, left, right, image.slot) ==>
          image.decoded != image.skipped
          && image.verdict == if image.skipped then "different"
                              else disk.pixels(PathAt(left, image.slot), PathAt(right, image.slot)))
  }

  lemma ImageMeans(disk: Disk, left: Kept, right: Kept, slot: nat, budget: nat)
    ensures var image := ImageOf(disk, left, right, slot, budget);
            && image.slot == slot && ImageFits(disk, left, right, image)
            && (image.decoded <==> Differs(disk, left, right, slot) && budget > 0)
            && (image.skipped <==> Differs(disk, left, right, slot) && budget == 0)
            && (image.skipped ==> image.verdict == "different")
  {
  }

  lemma {:induction false} ImageAt(disk: Disk, left: Kept, right: Kept, slots: seq<nat>, i: nat, budget: nat)
    requires i < |slots|
    ensures ImagesOf(disk, left, right, slots, budget)[i]
            == ImageOf(disk, left, right, slots[i], Monus(budget, Need(disk, left, right, slots[..i])))
  {
    var n := |slots| - 1;
    if i < n {
      ImageAt(disk, left, right, slots[..n], i, budget);
      assert slots[..n][..i] == slots[..i];
    }
  }

  /** Every slot has its row, in order, with the verdict it deserves; of the pairs that differ the first `budget`
      are decoded and the others are not. */
  lemma ImagesFit(disk: Disk, left: Kept, right: Kept, slots: seq<nat>, budget: nat)
    ensures var images := ImagesOf(disk, left, right, slots, budget);
            forall i | 0 <= i < |slots| ::
              images[i].slot == slots[i] && ImageFits(disk, left, right, images[i])
              && (images[i].decoded <==>
                    Differs(disk, left, right, slots[i]) && Need(disk, left, right, slots[..i]) < budget)
  {
    var images := ImagesOf(disk, left, right, slots, budget);
    forall i: nat | i < |slots|
      ensures images[i].slot == slots[i] && ImageFits(disk, left, right, images[i])
      ensures images[i].decoded <==> Differs(disk, left, right, slots[i]) && Need(disk, left, right, slots[..i]) < budget
    {
      ImageAt(disk, left, right, slots, i, budget);
      ImageMeans(disk, left, right, slots[i], Monus(budget, Need(disk, left, right, slots[..i])));
    }
  }

  lemma CountsNext(images: seq<Image>, image: Image)
    ensures Decoded(images + [image]) == Decoded(images) + One(image.decoded)
    ensures Skipped(images + [image]) == Skipped(images) + One(image.skipped)
    ensures ComparedImages(images + [image]) == ComparedImages(images) + One(image.verdict in ["identical", "different"])
    ensures TrulyCompared(images + [image])
            == TrulyCompared(images) + One(image.verdict in ["identical", "different"] && !image.skipped)
  {
    assert (images + [image])[..|images|] == images;
  }

  lemma CountsStep(images: seq<Image>, image: Image, need: nat, budget: nat, differs: bool)
    requires Decoded(images) == Least(need, budget) && Skipped(images) == Monus(need, budget)
    requires image.decoded <==> differs && Monus(budget, need) > 0
    requires image.skipped <==> differs && Monus(budget, need) == 0
    ensures Decoded(images + [image]) == Least(need + One(differs), budget)
    ensures Skipped(images + [image]) == Monus(need + One(differs), budget)
  {
    CountsNext(images, image);
  }

  lemma SpentNext(disk: Disk, left: Kept, right: Kept, images: seq<Image>, slot: nat, need: nat, budget: nat)
    requires Decoded(images) == Least(need, budget) && Skipped(images) == Monus(need, budget)
    ensures var more := images + [ImageOf(disk, left, right, slot, Monus(budget, need))];
            && Decoded(more) == Least(need + One(Differs(disk, left, right, slot)), budget)
            && Skipped(more) == Monus(need + One(Differs(disk, left, right, slot)), budget)
  {
    ImageMeans(disk, left, right, slot, Monus(budget, need));
    CountsStep(images, ImageOf(disk, left, right, slot, Monus(budget, need)), need, budget, Differs(disk, left, right, slot));
  }

  /** The pairs that differ are decoded or skipped, and skipped only once the budget is spent. */
  lemma {:induction false} BudgetIsSpent(disk: Disk, left: Kept, right: Kept, slots: seq<nat>, budget: nat)
    ensures var images, need := ImagesOf(disk, left, right, slots, budget), Need(disk, left, right, slots);
            Decoded(images) == Least(need, budget) && Skipped(images) == Monus(need, budget)
  {
    if slots != [] {
      var init, last := slots[..|slots| - 1], slots[|slots| - 1];
      BudgetIsSpent(disk, left, right, init, budget);
      SpentNext(disk, left, right, ImagesOf(disk, left, right, init, budget), last, Need(disk, left, right, init), budget);
    }
  }

  /** A skipped picture is counted as compared. */
  lemma {:induction false} SkippedCountsAsCompared(disk: Disk, left: Kept, right: Kept, slots: seq<nat>, budget: nat)
    ensures var images := ImagesOf(disk, left, right, slots, budget);
            ComparedImages(images) == TrulyCompared(images) + Skipped(images)
  {
    if slots != [] {
      var n := |slots| - 1;
      var rest := Monus(budget, Need(disk, left, right, slots[..n]));
      SkippedCountsAsCompared(disk, left, right, slots[..n], budget);
      ImageMeans(disk, left, right, slots[n], rest);
      CountsNext(ImagesOf(disk, left, right, slots[..n], budget), ImageOf(disk, left, right, slots[n], rest));
    }
  }

  // ------------------------------------------------------------------ the other way round, and against itself

  /** The sides of a picture's row exchanged. Which of the differing pairs are decoded is a matter of the document
      they stand in. */
  predicate ImageSwaps(forth: Image, back: Image) {
    && back.slot == forth.slot
    && (back.decoded || back.skipped <==> forth.decoded || forth.skipped)
    && (!forth.decoded && !forth.skipped ==> back.verdict == OtherSide(forth.verdict))
  }

  lemma SlotsSwap(left: Kept, right: Kept)
    ensures Slots(right, left) == Slots(left, right)
  {
    assert left.Keys + right.Keys == right.Keys + left.Keys;
  }

  /** Comparing the other way round gives the same slots, those of one side named after the other; the pictures that
      are identical and those that differ are the same. */
  lemma ImagesSwap(disk: Disk, left: Kept, right: Kept, budget: nat, budgetBack: nat)
    ensures |Images(disk, right, left, budgetBack)| == |Images(disk, left, right, budget)|
    ensures forall i | 0 <= i < |Images(disk, left, right, budget)| ::
              ImageSwaps(Images(disk, left, right, budget)[i], Images(disk, right, left, budgetBack)[i])
  {
    SlotsSwap(left, right);
    SlotsSwapAt(disk, left, right, Slots(left, right), budget, budgetBack);
  }

  lemma SlotsSwapAt(disk: Disk, left: Kept, right: Kept, slots: seq<nat>, budget: nat, budgetBack: nat)
    requires forall s | s in slots :: s in left || s in right
    ensures forall i | 0 <= i < |slots| ::
              ImageSwaps(ImagesOf(disk, left, right, slots, budget)[i], ImagesOf(disk, right, left, slots, budgetBack)[i])
  {
    ImagesFit(disk, left, right, slots, budget);
    ImagesFit(disk, right, left, slots, budgetBack);
    var forth, back := ImagesOf(disk, left, right, slots, budget), ImagesOf(disk, right, left, slots, budgetBack);
    forall i | 0 <= i < |slots| ensures ImageSwaps(forth[i], back[i]) {
      assert slots[i] in slots;
      FitsBothWays(disk, left, right, forth[i], back[i]);
    }
  }

  lemma FitsBothWays(disk: Disk, left: Kept, right: Kept, forth: Image, back: Image)
    requires forth.slot == back.slot && (PathAt(left, forth.slot) != "" || PathAt(right, forth.slot) != "")
    requires ImageFits(disk, left, right, forth) && ImageFits(disk, right, left, back)
    ensures ImageSwaps(forth, back)
  {
  }

  lemma {:induction false} NothingToDecode(images: seq<Image>)
    requires forall i | 0 <= i < |images| :: images[i].verdict == "identical" && !images[i].decoded && !images[i].skipped
    ensures Decoded(images) == 0 && Skipped(images) == 0 && ComparedImages(images) == |images|
  {
    if images != [] {
      NothingToDecode(images[..|images| - 1]);
    }
  }
}
