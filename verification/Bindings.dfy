/**
 Shader bindings against the root signature: is every bound register declared, where its class is
 declared at all (src/cpp/commands_state.cpp)?  Registers are 32-bit and wrap.
 */
module Bindings {

  const WORD := 0x1_0000_0000

  type uint32 = x: int | 0 <= x < WORD

  /** A run of registers of one class in one space; a count of 0 or of all ones has no end. */
  datatype Range = Range(category: int, space: uint32, base: uint32, count: uint32)

  datatype Visibility = All | Only(stages: set<nat>)

  /** A table of ranges, or without any a root constant or descriptor at one register. */
  datatype Param = Param(visibility: Visibility, ranges: seq<Range>, space: uint32, register: uint32)

  predicate Visible(visibility: Visibility, stage: nat) {
    visibility.All? || stage in visibility.stages
  }

  predicate Unbounded(range: Range) {
    range.count == 0 || range.count == WORD - 1
  }

  /** The registers a range is meant to hold. */
  predicate Holds(range: Range, reg: uint32) {
    range.base <= reg && (Unbounded(range) || reg < range.base + range.count)
  }

  /** The same question with a 32-bit end. */
  predicate MachineHolds(range: Range, reg: uint32) {
    reg >= range.base && (Unbounded(range) || reg < (range.base + range.count) % WORD)
  }

  /** The range's end fits in 32 bits. */
  predicate EndFits(range: Range) {
    Unbounded(range) || range.base + range.count < WORD
  }

  /** The 32-bit test is right for every register exactly when the end of the range fits in 32 bits. */
  lemma TestIsExact(range: Range)
    ensures (forall reg: uint32 :: MachineHolds(range, reg) <==> Holds(range, reg))
            <==> EndFits(range)
  {
    if !EndFits(range) {
      // The first register of the range: declared, but past the wrapped end.
      assert Holds(range, range.base) && !MachineHolds(range, range.base);
    }
  }

  /** What the signature declares: through one of a table's ranges, or by a parameter of its own. */
  predicate ParamDeclares(param: Param, category: int, space: uint32, reg: uint32, stage: nat) {
    Visible(param.visibility, stage)
    && if param.ranges != [] then
         exists r :: 0 <= r < |param.ranges| && RangeDeclares(param.ranges[r], category, space, reg)
       else param.space == space && param.register == reg
  }

  predicate RangeDeclares(range: Range, category: int, space: uint32, reg: uint32) {
    range.category == category && range.space == space && MachineHolds(range, reg)
  }

  predicate Declares(root: seq<Param>, category: int, space: uint32, reg: uint32, stage: nat) {
    exists p :: 0 <= p < |root| && ParamDeclares(root[p], category, space, reg, stage)
  }

  method RangesDeclare(ranges: seq<Range>, category: int, space: uint32, reg: uint32) returns (yes: bool)
    ensures yes <==> exists r :: 0 <= r < |ranges| && RangeDeclares(ranges[r], category, space, reg)
  {
    for r := 0 to |ranges|
      invariant forall k | 0 <= k < r :: !RangeDeclares(ranges[k], category, space, reg)
    {
      var range := ranges[r];
      if range.category != category || range.space != space {
        continue;
      }
      if reg >= range.base && (Unbounded(range) || reg < (range.base + range.count) % WORD) {
        assert RangeDeclares(ranges[r], category, space, reg);
        return true;
      }
    }
    return false;
  }

  method RootDeclares(root: seq<Param>, category: int, space: uint32, reg: uint32, stage: nat) returns (yes: bool)
    ensures yes <==> Declares(root, category, space, reg, stage)
  {
    for p := 0 to |root|
      invariant forall k | 0 <= k < p :: !ParamDeclares(root[k], category, space, reg, stage)
    {
      if !Visible(root[p].visibility, stage) {
        continue;
      }
      if root[p].ranges != [] {
        var found := RangesDeclare(root[p].ranges, category, space, reg);
        if found {
          assert ParamDeclares(root[p], category, space, reg, stage);
          return true;
        }
        continue;
      }
      if root[p].space == space && root[p].register == reg {
        assert ParamDeclares(root[p], category, space, reg, stage);
        return true;
      }
    }
    return false;
  }

  // ------------------------------------------------------------------ the declared span

  function LastOf(range: Range): uint32 {
    if Unbounded(range) then WORD - 1 else (range.base + range.count - 1) % WORD
  }

  datatype Span = Span(any: bool, lo: uint32, hi: uint32)

  const NO_SPAN := Span(false, WORD - 1, 0)

  function Widened(span: Span, range: Range): Span {
    Span(true, if range.base < span.lo then range.base else span.lo, if LastOf(range) > span.hi then LastOf(range) else span.hi)
  }

  /** The relevant ranges, in order. */
  function RangesOf(ranges: seq<Range>, category: int, space: uint32): seq<Range> {
    if ranges == [] then []
    else
      var last := ranges[|ranges| - 1];
      RangesOf(ranges[..|ranges| - 1], category, space)
      + if last.category == category && last.space == space then [last] else []
  }

  function RelevantOf(root: seq<Param>, category: int, space: uint32, stage: nat): seq<Range> {
    if root == [] then []
    else
      var last := root[|root| - 1];
      RelevantOf(root[..|root| - 1], category, space, stage)
      + if Visible(last.visibility, stage) then RangesOf(last.ranges, category, space) else []
  }

  function SpanOf(ranges: seq<Range>, span: Span): Span {
    if ranges == [] then span else Widened(SpanOf(ranges[..|ranges| - 1], span), ranges[|ranges| - 1])
  }

  method DeclaredSpan(root: seq<Param>, category: int, space: uint32, stage: nat) returns (span: Span)
    ensures span == SpanOf(RelevantOf(root, category, space, stage), NO_SPAN)
  {
    span := NO_SPAN;
    for p := 0 to |root|
      invariant span == SpanOf(RelevantOf(root[..p], category, space, stage), NO_SPAN)
    {
      assert root[..p + 1][..p] == root[..p];
      var before := RelevantOf(root[..p], category, space, stage);
      if !Visible(root[p].visibility, stage) {
        assert before + [] == before;
        continue;
      }
      SpanConcat(before, RangesOf(root[p].ranges, category, space), NO_SPAN);
      span := SpanOfParam(root[p].ranges, category, space, span);
    }
    assert root[..|root|] == root;
  }

  method SpanOfParam(ranges: seq<Range>, category: int, space: uint32, was: Span) returns (span: Span)
    ensures span == SpanOf(RangesOf(ranges, category, space), was)
  {
    span := was;
    for r := 0 to |ranges|
      invariant span == SpanOf(RangesOf(ranges[..r], category, space), was)
    {
      assert ranges[..r + 1][..r] == ranges[..r];
      var range, before := ranges[r], RangesOf(ranges[..r], category, space);
      if range.category != category || range.space != space {
        assert before + [] == before;
        continue;
      }
      assert (before + [range])[..|before|] == before;
      span := Widened(span, range);
    }
    assert ranges[..|ranges|] == ranges;
  }

  lemma {:induction false} SpanConcat(xs: seq<Range>, ys: seq<Range>, span: Span)
    ensures SpanOf(xs + ys, span) == SpanOf(ys, SpanOf(xs, span))
  {
    if ys == [] {
      assert xs + ys == xs;
    } else {
      SpanConcat(xs, ys[..|ys| - 1], span);
      assert (xs + ys)[..|xs + ys| - 1] == xs + ys[..|ys| - 1];
    }
  }

  /** A range that does not run past the last register. */
  predicate WellFormed(range: Range) {
    Unbounded(range) || range.base + range.count <= WORD
  }

  /** Range `range` holds `reg`, and so does the list. */
  predicate Held(ranges: seq<Range>, reg: uint32) {
    exists range :: range in ranges && Holds(range, reg)
  }

  lemma HeldByMore(ranges: seq<Range>, last: Range)
    ensures forall reg: uint32 | Held(ranges, reg) || Holds(last, reg) :: Held(ranges + [last], reg)
    ensures forall reg: uint32 | Held(ranges + [last], reg) :: Held(ranges, reg) || Holds(last, reg)
  {
    forall reg: uint32 | Held(ranges, reg) || Holds(last, reg) ensures Held(ranges + [last], reg) {
      if Held(ranges, reg) {
        var range :| range in ranges && Holds(range, reg);
        assert range in ranges + [last];
      } else {
        assert last in ranges + [last];
      }
    }
  }

  /** The span is the tightest one: it holds every declared register, and both its ends are declared. */
  lemma {:induction false} SpanIsTightest(ranges: seq<Range>)
    requires forall range | range in ranges :: WellFormed(range)
    ensures SpanOf(ranges, NO_SPAN).any <==> ranges != []
    ensures ranges != [] ==> Held(ranges, SpanOf(ranges, NO_SPAN).lo) && Held(ranges, SpanOf(ranges, NO_SPAN).hi)
    ensures forall reg: uint32 | Held(ranges, reg) :: SpanOf(ranges, NO_SPAN).lo <= reg <= SpanOf(ranges, NO_SPAN).hi
  {
    if ranges != [] {
      var init, last := ranges[..|ranges| - 1], ranges[|ranges| - 1];
      assert ranges == init + [last];
      assert last in ranges;
      SpanIsTightest(init);
      HeldByMore(init, last);
      assert Holds(last, last.base) && Holds(last, LastOf(last));
      if init == [] {
        assert SpanOf(init, NO_SPAN) == NO_SPAN;
      }
    }
  }

  lemma {:induction false} LowEndIsLeast(ranges: seq<Range>)
    ensures forall range | range in ranges :: SpanOf(ranges, NO_SPAN).lo <= range.base
  {
    if ranges != [] {
      LowEndIsLeast(ranges[..|ranges| - 1]);
      assert ranges == ranges[..|ranges| - 1] + [ranges[|ranges| - 1]];
    }
  }

  /** A range that reaches the last register, and does not run past it. */
  predicate Reaches(range: Range) {
    Unbounded(range) || range.base + range.count == WORD
  }

  lemma {:induction false} HighEnd(ranges: seq<Range>)
    ensures SpanOf(ranges, NO_SPAN).hi == WORD - 1 <==> exists range :: range in ranges && Reaches(range)
  {
    if ranges != [] {
      var init, last := ranges[..|ranges| - 1], ranges[|ranges| - 1];
      HighEnd(init);
      assert ranges == init + [last];
      assert LastOf(last) == WORD - 1 <==> Reaches(last);
    }
  }

  /** For any ranges: the span holds every register they are meant to hold exactly when none of them runs past the last
      register, or another one reaches it. */
  lemma SpanHoldsAll(ranges: seq<Range>)
    ensures (forall reg: uint32 | Held(ranges, reg) :: SpanOf(ranges, NO_SPAN).lo <= reg <= SpanOf(ranges, NO_SPAN).hi)
            <==> (forall range | range in ranges :: WellFormed(range)) || exists range :: range in ranges && Reaches(range)
  {
    LowEndIsLeast(ranges);
    HighEnd(ranges);
    if forall range | range in ranges :: WellFormed(range) {
      SpanIsTightest(ranges);
    } else {
      var range :| range in ranges && !WellFormed(range);
      assert Holds(range, WORD - 1) && Held(ranges, WORD - 1);
    }
  }

  /** An input: two registers from the last one on, and a span that ends at register 0. */
  lemma SpanMissesRegisters()
    ensures var ranges := [Range(0, 0, WORD - 1, 2)];
            Held(ranges, WORD - 1) && SpanOf(ranges, NO_SPAN).hi == 0
  {
    var range := Range(0, 0, WORD - 1, 2);
    assert range in [range] && Holds(range, WORD - 1);
    assert [range][..0] == [];
  }

  // ------------------------------------------------------------------ one binding

  datatype Outcome = Covered | Unmapped | Outside(span: Span)

  /** Register `i` of a binding, counted in 32 bits. */
  function RegisterAt(bind: uint32, i: nat): uint32 {
    (bind + i) % WORD
  }

  method CheckBindingList(root: seq<Param>, category: int, space: uint32, stage: nat, bind: uint32, arraySize: uint32)
    returns (outcome: Outcome)
    ensures outcome == Unmapped <==> RelevantOf(root, category, space, stage) == []
    ensures outcome.Outside? <==> Reported(root, category, space, stage, bind, arraySize)
    ensures outcome.Outside? ==> outcome.span == SpanOf(RelevantOf(root, category, space, stage), NO_SPAN)
  {
    var span := DeclaredSpan(root, category, space, stage);
    if !span.any {
      return Unmapped;
    }
    var count := if arraySize == 0 then 1 else arraySize;
    for i := 0 to count
      invariant forall k: nat | k < i :: Declares(root, category, space, RegisterAt(bind, k), stage)
    {
      var declared := RootDeclares(root, category, space, RegisterAt(bind, i), stage);
      if !declared {
        return Outside(span);
      }
    }
    return Covered;
  }

  // ------------------------------------------------------------------ what the report is worth

  /** What the signature is meant to declare. */
  predicate ParamMeans(param: Param, category: int, space: uint32, reg: uint32, stage: nat) {
    Visible(param.visibility, stage)
    && if param.ranges != [] then exists r :: 0 <= r < |param.ranges| && RangeMeans(param.ranges[r], category, space, reg)
       else param.space == space && param.register == reg
  }

  predicate RangeMeans(range: Range, category: int, space: uint32, reg: uint32) {
    range.category == category && range.space == space && Holds(range, reg)
  }

  predicate Means(root: seq<Param>, category: int, space: uint32, reg: uint32, stage: nat) {
    exists p :: 0 <= p < |root| && ParamMeans(root[p], category, space, reg, stage)
  }

  function Count(arraySize: uint32): nat {
    if arraySize == 0 then 1 else arraySize
  }

  /** A binding's report: some register of it is undeclared, by the machine's test. */
  predicate Reported(root: seq<Param>, category: int, space: uint32, stage: nat, bind: uint32, arraySize: uint32) {
    && RelevantOf(root, category, space, stage) != []
    && exists i: nat :: i < Count(arraySize) && !Declares(root, category, space, RegisterAt(bind, i), stage)
  }

  /** The report that the signature deserves. */
  predicate Deserved(root: seq<Param>, category: int, space: uint32, stage: nat, bind: uint32, arraySize: uint32) {
    && RelevantOf(root, category, space, stage) != []
    && exists i: nat :: i < Count(arraySize) && !Means(root, category, space, RegisterAt(bind, i), stage)
  }

  /** A range of the class that the stage sees and whose end does not fit. */
  predicate WrapsAt(root: seq<Param>, category: int, space: uint32, stage: nat, p: nat, r: nat) {
    && p < |root| && r < |root[p].ranges| && Visible(root[p].visibility, stage)
    && root[p].ranges[r].category == category && root[p].ranges[r].space == space && !EndFits(root[p].ranges[r])
  }

  /** Declared by a range whose end fits, or by a parameter of its own. */
  predicate ParamSurely(param: Param, category: int, space: uint32, reg: uint32, stage: nat) {
    Visible(param.visibility, stage)
    && if param.ranges != [] then
         exists r :: 0 <= r < |param.ranges| && EndFits(param.ranges[r]) && RangeMeans(param.ranges[r], category, space, reg)
       else param.space == space && param.register == reg
  }

  predicate Surely(root: seq<Param>, category: int, space: uint32, reg: uint32, stage: nat) {
    exists p :: 0 <= p < |root| && ParamSurely(root[p], category, space, reg, stage)
  }

  lemma RangeTest(range: Range, reg: uint32)
    ensures MachineHolds(range, reg) <==> EndFits(range) && Holds(range, reg)
  {
  }

  /** What the machine's test finds declared is what is declared by something other than a range that wraps. */
  lemma DeclaredSurely(root: seq<Param>, category: int, space: uint32, reg: uint32, stage: nat)
    ensures Declares(root, category, space, reg, stage) <==> Surely(root, category, space, reg, stage)
  {
    forall p | 0 <= p < |root|
      ensures ParamDeclares(root[p], category, space, reg, stage) <==> ParamSurely(root[p], category, space, reg, stage)
    {
      ParamTest(root[p], category, space, reg, stage);
    }
  }

  lemma ParamTest(param: Param, category: int, space: uint32, reg: uint32, stage: nat)
    ensures ParamDeclares(param, category, space, reg, stage) <==> ParamSurely(param, category, space, reg, stage)
  {
    forall r | 0 <= r < |param.ranges|
      ensures RangeDeclares(param.ranges[r], category, space, reg)
              <==> EndFits(param.ranges[r]) && RangeMeans(param.ranges[r], category, space, reg)
    {
      RangeTest(param.ranges[r], reg);
    }
  }

  /** Every register that a wrapping range is meant to hold is declared by something else. */
  ghost predicate WrapsDoNoHarm(root: seq<Param>, category: int, space: uint32, stage: nat) {
    forall p: nat, r: nat, reg: uint32 | WrapsAt(root, category, space, stage, p, r) && Holds(root[p].ranges[r], reg) ::
      Surely(root, category, space, reg, stage)
  }

  lemma SurelyMeans(root: seq<Param>, category: int, space: uint32, reg: uint32, stage: nat)
    ensures Surely(root, category, space, reg, stage) ==> Means(root, category, space, reg, stage)
  {
    if Surely(root, category, space, reg, stage) {
      var p :| 0 <= p < |root| && ParamSurely(root[p], category, space, reg, stage);
      assert ParamMeans(root[p], category, space, reg, stage);
    }
  }

  lemma MeansSurely(root: seq<Param>, category: int, space: uint32, reg: uint32, stage: nat)
    requires WrapsDoNoHarm(root, category, space, stage) && Means(root, category, space, reg, stage)
    ensures Surely(root, category, space, reg, stage)
  {
    var p :| 0 <= p < |root| && ParamMeans(root[p], category, space, reg, stage);
    if root[p].ranges != [] {
      var r :| 0 <= r < |root[p].ranges| && RangeMeans(root[p].ranges[r], category, space, reg);
      if EndFits(root[p].ranges[r]) {
        assert ParamSurely(root[p], category, space, reg, stage);
      } else {
        assert WrapsAt(root, category, space, stage, p, r);
      }
    } else {
      assert ParamSurely(root[p], category, space, reg, stage);
    }
  }

  /** A binding of one register. */
  lemma OneRegister(reg: uint32)
    ensures Count(1) == 1 && RegisterAt(reg, 0) == reg
  {
  }

  /** The report on every binding is the one it deserves exactly when each register that a wrapping range is meant to
      hold is declared by something else as well. */
  lemma ReportsAreDeserved(root: seq<Param>, category: int, space: uint32, stage: nat)
    ensures (forall bind: uint32, arraySize: uint32 ::
               Reported(root, category, space, stage, bind, arraySize)
               <==> Deserved(root, category, space, stage, bind, arraySize))
            <==> WrapsDoNoHarm(root, category, space, stage)
  {
    forall reg: uint32
      ensures Declares(root, category, space, reg, stage) <==> Surely(root, category, space, reg, stage)
      ensures Surely(root, category, space, reg, stage) ==> Means(root, category, space, reg, stage)
    {
      DeclaredSurely(root, category, space, reg, stage);
      SurelyMeans(root, category, space, reg, stage);
    }
    if WrapsDoNoHarm(root, category, space, stage) {
      forall reg: uint32 | Means(root, category, space, reg, stage) ensures Surely(root, category, space, reg, stage) {
        MeansSurely(root, category, space, reg, stage);
      }
    } else {
      var p: nat, r: nat, reg: uint32 :| WrapsAt(root, category, space, stage, p, r) && Holds(root[p].ranges[r], reg) && !Surely(root, category, space, reg, stage);
      WrongReport(root, category, space, stage, p, r, reg);
    }
  }

  /** The report that such a register draws. */
  lemma WrongReport(root: seq<Param>, category: int, space: uint32, stage: nat, p: nat, r: nat, reg: uint32)
    requires WrapsAt(root, category, space, stage, p, r) && Holds(root[p].ranges[r], reg)
    requires !Surely(root, category, space, reg, stage)
    ensures Reported(root, category, space, stage, reg, 1) && !Deserved(root, category, space, stage, reg, 1)
  {
    DeclaredSurely(root, category, space, reg, stage);
    OneRegister(reg);
    RelevantRange(root, category, space, stage, p, r);
    assert !Declares(root, category, space, RegisterAt(reg, 0), stage);
    assert RangeMeans(root[p].ranges[r], category, space, reg);
    assert ParamMeans(root[p], category, space, reg, stage);
  }

  lemma {:induction false} RelevantRange(root: seq<Param>, category: int, space: uint32, stage: nat, p: nat, r: nat)
    requires WrapsAt(root, category, space, stage, p, r)
    ensures RelevantOf(root, category, space, stage) != []
  {
    var n := |root| - 1;
    if p < n {
      RelevantRange(root[..n], category, space, stage, p, r);
    } else {
      RelevantIn(root[p].ranges, category, space, r);
    }
  }

  lemma {:induction false} RelevantIn(ranges: seq<Range>, category: int, space: uint32, r: nat)
    requires r < |ranges| && ranges[r].category == category && ranges[r].space == space
    ensures RangesOf(ranges, category, space) != []
  {
    if r < |ranges| - 1 {
      RelevantIn(ranges[..|ranges| - 1], category, space, r);
    }
  }

  /** An input: one range that ends at the last register, and the report that this register is undeclared. */
  lemma LastRegisterIsReported(stage: nat)
    ensures var root := [Param(All, [Range(0, 0, WORD - 1, 1)], 0, 0)];
            Reported(root, 0, 0, stage, WORD - 1, 1) && !Deserved(root, 0, 0, stage, WORD - 1, 1)
  {
    var range := Range(0, 0, WORD - 1, 1);
    var root := [Param(All, [range], 0, 0)];
    assert WrapsAt(root, 0, 0, stage, 0, 0) && Holds(range, WORD - 1) && !EndFits(range);
    WrongReport(root, 0, 0, stage, 0, 0, WORD - 1);
  }

  // ------------------------------------------------------------------ which ranges count

  /** The registers a range is meant to hold: from its first one on, as many as it counts; 0 and the greatest 32-bit
      number both stand for all. */
  lemma HoldsMeans(range: Range, reg: uint32)
    ensures Holds(range, reg)
            <==> range.base <= reg && (range.count == 0 || range.count == 0xffff_ffff || reg < range.base + range.count)
  {
  }

  lemma {:induction false} RangesTell(ranges: seq<Range>, category: int, space: uint32)
    ensures forall range :: range in RangesOf(ranges, category, space)
              <==> range in ranges && range.category == category && range.space == space
  {
    if ranges != [] {
      RangesTell(ranges[..|ranges| - 1], category, space);
      assert ranges == ranges[..|ranges| - 1] + [ranges[|ranges| - 1]];
    }
  }

  /** A range that a stage sees: of a parameter visible to it or to all. */
  ghost predicate Seen(root: seq<Param>, category: int, space: uint32, stage: nat, range: Range) {
    exists param :: param in root && (param.visibility.All? || stage in param.visibility.stages) && range in param.ranges
                    && range.category == category && range.space == space
  }

  /** The ranges that the span is of: those of the class and the space that the stage sees. */
  lemma {:induction false} RelevantTells(root: seq<Param>, category: int, space: uint32, stage: nat)
    ensures forall range :: range in RelevantOf(root, category, space, stage) <==> Seen(root, category, space, stage, range)
  {
    if root != [] {
      var init, last := root[..|root| - 1], root[|root| - 1];
      RelevantTells(init, category, space, stage);
      RangesTell(last.ranges, category, space);
      forall range
        ensures Seen(root, category, space, stage, range)
                <==> Seen(init, category, space, stage, range) || Seen([last], category, space, stage, range)
      {
        SeenSplits(init, last, category, space, stage, range);
        assert root == init + [last];
      }
    }
  }

  lemma SeenSplits(init: seq<Param>, last: Param, category: int, space: uint32, stage: nat, range: Range)
    ensures Seen(init + [last], category, space, stage, range)
            <==> Seen(init, category, space, stage, range) || Seen([last], category, space, stage, range)
  {
    if Seen(init, category, space, stage, range) {
      var param :| param in init && (param.visibility.All? || stage in param.visibility.stages) && range in param.ranges
        && range.category == category && range.space == space;
      assert param in init + [last];
    }
    if Seen([last], category, space, stage, range) {
      assert last in [last] && last in init + [last];
    }
  }

  /** A parameter of its own for the register. */
  predicate Own(param: Param, space: uint32, reg: uint32, stage: nat) {
    && (param.visibility.All? || stage in param.visibility.stages) && param.ranges == []
    && param.space == space && param.register == reg
  }

  /** A register is meant to be declared by such a range, or by a parameter of its own that has no ranges. */
  lemma MeansTells(root: seq<Param>, category: int, space: uint32, reg: uint32, stage: nat)
    ensures Means(root, category, space, reg, stage)
            <==> (exists range :: Seen(root, category, space, stage, range) && Holds(range, reg))
                 || exists param :: param in root && Own(param, space, reg, stage)
  {
    if Means(root, category, space, reg, stage) {
      var p :| 0 <= p < |root| && ParamMeans(root[p], category, space, reg, stage);
      assert root[p] in root;
      if root[p].ranges != [] {
        var r :| 0 <= r < |root[p].ranges| && RangeMeans(root[p].ranges[r], category, space, reg);
        assert Seen(root, category, space, stage, root[p].ranges[r]);
      }
    }
    if range :| Seen(root, category, space, stage, range) && Holds(range, reg) {
      var param :| param in root && (param.visibility.All? || stage in param.visibility.stages) && range in param.ranges
        && range.category == category && range.space == space;
      var p :| 0 <= p < |root| && root[p] == param;
      var r :| 0 <= r < |param.ranges| && param.ranges[r] == range;
      assert RangeMeans(root[p].ranges[r], category, space, reg);
      assert ParamMeans(root[p], category, space, reg, stage);
    }
    if param :| param in root && Own(param, space, reg, stage) {
      var p :| 0 <= p < |root| && root[p] == param;
      assert ParamMeans(root[p], category, space, reg, stage);
    }
  }

  /** The registers of a binding: as many as its array has, one if it is none, counted on in 32 bits. */
  lemma RegistersAre(bind: uint32, arraySize: uint32, i: nat)
    requires i < Count(arraySize)
    ensures Count(arraySize) == if arraySize == 0 then 1 else arraySize
    ensures RegisterAt(bind, i) == if bind + i < 0x1_0000_0000 then bind + i else bind + i - 0x1_0000_0000
  {
  }
}
