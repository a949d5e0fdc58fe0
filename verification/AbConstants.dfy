/** The constant blocks of an aligned pass pair, block by block and member by member (src/py/rdc_ab.py). */
module AbConstants {
  import opened Basics
  import opened Sorting
  import opened Alignment
  import opened AbPair

  type Blocks = map<(string, nat), Block>

  /** What is said of a block as a whole. */
  datatype Note = OnlyInA | OnlyInB | AllSame

  datatype ValueRow = ValueRow(member: string, a: string, b: string)

  datatype BlockRow =
    BlockRow(name: string, stage: string, slot: nat, aFile: string, bFile: string, notes: seq<Note>, values: seq<ValueRow>)

  function BlocksAt(a: Bundle, eid: int): Blocks {
    if eid in a.blocks then a.blocks[eid] else map[]
  }

  // ------------------------------------------------------------------ one block

  function MemberRow(members: map<string, string>, member: string): string {
    if member in members then members[member] else ""
  }

  function OrAbsent(row: string): string {
    if row == "" then NOT_PRESENT else row
  }

  function ValueOf(left: map<string, string>, right: map<string, string>, member: string): ValueRow {
    ValueRow(Strip(member), OrAbsent(MemberRow(left, member)), OrAbsent(MemberRow(right, member)))
  }

  /** The members that differ among those named, in their order. */
  function Changed(left: map<string, string>, right: map<string, string>, names: seq<string>): seq<string> {
    if names == [] then []
    else
      var last := names[|names| - 1];
      Changed(left, right, names[..|names| - 1]) + if MemberRow(left, last) != MemberRow(right, last) then [last] else []
  }

  function ValuesOf(left: map<string, string>, right: map<string, string>, names: seq<string>): seq<ValueRow> {
    seq(|names|, i requires 0 <= i < |names| => ValueOf(left, right, names[i]))
  }

  /** The members that differ, sorted. */
  ghost function ChangedMembers(left: map<string, string>, right: map<string, string>): seq<string> {
    StringsOrder();
    Changed(left, right, Sorted(StringLess, left.Keys + right.Keys))
  }

  ghost function BlockValues(left: map<string, string>, right: map<string, string>): seq<ValueRow> {
    ValuesOf(left, right, ChangedMembers(left, right))
  }

  lemma {:induction false} ChangedKeeps(left: map<string, string>, right: map<string, string>, names: seq<string>)
    requires Strict(StringLess, names)
    ensures Strict(StringLess, Changed(left, right, names))
    ensures forall m :: m in Changed(left, right, names) <==> m in names && MemberRow(left, m) != MemberRow(right, m)
  {
    if names != [] {
      var init, last := names[..|names| - 1], names[|names| - 1];
      ChangedKeeps(left, right, init);
      var kept := Changed(left, right, init);
      assert names == init + [last];
      forall i | 0 <= i < |kept| ensures StringLess(kept[i], last) {
        assert kept[i] in init;
      }
    }
  }

  /** The rows of a block are its differing members, each once, in strict order: none is missed, none is added. */
  lemma ValuesAreExact(left: map<string, string>, right: map<string, string>)
    ensures var names := ChangedMembers(left, right);
            Strict(StringLess, names) && (forall m :: m in names <==> MemberRow(left, m) != MemberRow(right, m))
            && |BlockValues(left, right)| == |names|
            && forall i | 0 <= i < |names| :: BlockValues(left, right)[i] == ValueOf(left, right, names[i])
  {
    StringsOrder();
    ChangedKeeps(left, right, Sorted(StringLess, left.Keys + right.Keys));
  }

  method CompareValues(left: map<string, string>, right: map<string, string>) returns (values: seq<ValueRow>)
    ensures values == BlockValues(left, right)
  {
    StringsOrder();
    var names := SortedList(StringLess, left.Keys + right.Keys);
    values := [];
    for i: nat := 0 to |names|
      invariant values == ValuesOf(left, right, Changed(left, right, names[..i]))
    {
      assert names[..i + 1][..i] == names[..i];
      var a, b := MemberRow(left, names[i]), MemberRow(right, names[i]);
      if a != b {
        ValuesNext(left, right, Changed(left, right, names[..i]), names[i]);
        values := values + [ValueRow(Strip(names[i]), OrAbsent(a), OrAbsent(b))];
      } else {
        assert Changed(left, right, names[..i]) + [] == Changed(left, right, names[..i]);
      }
    }
    assert names[..|names|] == names;
  }

  lemma ValuesNext(left: map<string, string>, right: map<string, string>, names: seq<string>, name: string)
    ensures ValuesOf(left, right, names + [name]) == ValuesOf(left, right, names) + [ValueOf(left, right, name)]
  {
  }

  // ------------------------------------------------------------------ all blocks

  function AfterFirst(text: string): string {
    if text == "" then "" else if text[0] == '_' then text[1..] else AfterFirst(text[1..])
  }

  /** A file's name without its event and its extension. */
  function BlockLabel(file: string): string {
    var stem := if |file| >= 5 && file[|file| - 5..] == ".json" then file[..|file| - 5] else file;
    if '_' in stem then AfterFirst(stem) else stem
  }

  lemma {:induction false} AfterFirstOf(head: string, tail: string)
    requires '_' !in head
    ensures AfterFirst(head + (['_'] + tail)) == tail
  {
    var text := head + (['_'] + tail);
    if head == "" {
      assert text == ['_'] + tail;
    } else {
      assert text[1..] == head[1..] + (['_'] + tail);
      AfterFirstOf(head[1..], tail);
    }
  }

  /** A document written for an event is labelled by what follows the event in its name. */
  lemma BlockLabelOf(event: string, name: string)
    requires '_' !in event
    ensures BlockLabel(event + (['_'] + name) + ".json") == name
  {
    var stem := event + (['_'] + name);
    var file := stem + ".json";
    assert file[|file| - 5..] == ".json" && file[..|file| - 5] == stem;
    assert stem[|event|] == '_';
    AfterFirstOf(event, name);
  }

  function FileOf(blocks: Blocks, key: (string, nat)): string {
    if key in blocks then blocks[key].file else ""
  }

  function MembersOf(blocks: Blocks, key: (string, nat)): map<string, string> {
    if key in blocks then blocks[key].members else map[]
  }

  function NotesOf(aFile: string, bFile: string, same: bool): seq<Note> {
    (if aFile != "" && bFile == "" then [OnlyInA] else if bFile != "" && aFile == "" then [OnlyInB] else [])
    + if aFile != "" && bFile != "" && same then [AllSame] else []
  }

  ghost function BlockRowOf(left: Blocks, right: Blocks, key: (string, nat)): BlockRow {
    var aFile, bFile := FileOf(left, key), FileOf(right, key);
    var values := BlockValues(MembersOf(left, key), MembersOf(right, key));
    BlockRow(BlockLabel(if aFile != "" then aFile else bFile), key.0, key.1, aFile, bFile,
             NotesOf(aFile, bFile, values == []), values)
  }

  ghost function BlockKeys(left: Blocks, right: Blocks): (keys: seq<(string, nat)>)
    ensures Strict(PairLess, keys) && forall key :: key in keys <==> key in left || key in right
  {
    PairsOrder();
    Sorted(PairLess, left.Keys + right.Keys)
  }

  /** One row for every block either side binds, by stage and slot. */
  ghost function BlockRows(left: Blocks, right: Blocks): (rows: seq<BlockRow>)
    ensures |rows| == |BlockKeys(left, right)|
    ensures forall i | 0 <= i < |rows| :: rows[i] == BlockRowOf(left, right, BlockKeys(left, right)[i])
  {
    RowsOver(left, right, BlockKeys(left, right))
  }

  ghost function RowsOver(left: Blocks, right: Blocks, keys: seq<(string, nat)>): seq<BlockRow> {
    seq(|keys|, i requires 0 <= i < |keys| => BlockRowOf(left, right, keys[i]))
  }

  lemma RowsNext(left: Blocks, right: Blocks, keys: seq<(string, nat)>, i: nat)
    requires i < |keys|
    ensures RowsOver(left, right, keys[..i + 1]) == RowsOver(left, right, keys[..i]) + [BlockRowOf(left, right, keys[i])]
  {
    assert keys[..i + 1] == keys[..i] + [keys[i]];
    RowsAppend(left, right, keys[..i], keys[i]);
  }

  lemma RowsAppend(left: Blocks, right: Blocks, keys: seq<(string, nat)>, key: (string, nat))
    ensures RowsOver(left, right, keys + [key]) == RowsOver(left, right, keys) + [BlockRowOf(left, right, key)]
  {
    var rows, more := RowsOver(left, right, keys), RowsOver(left, right, keys + [key]);
    forall k | 0 <= k < |keys| ensures more[k] == rows[k] {
    }
  }

  method CompareBlock(left: Blocks, right: Blocks, key: (string, nat)) returns (row: BlockRow)
    ensures row == BlockRowOf(left, right, key)
  {
    var aFile, bFile := FileOf(left, key), FileOf(right, key);
    var notes := [];
    if aFile != "" && bFile == "" {
      notes := notes + [OnlyInA];
    } else if bFile != "" && aFile == "" {
      notes := notes + [OnlyInB];
    }
    var values := CompareValues(MembersOf(left, key), MembersOf(right, key));
    if aFile != "" && bFile != "" && values == [] {
      notes := notes + [AllSame];
    }
    row := BlockRow(BlockLabel(if aFile != "" then aFile else bFile), key.0, key.1, aFile, bFile, notes, values);
  }

  method CompareCbuffers(a: Bundle, b: Bundle, p: Pass, q: Pass) returns (rows: seq<BlockRow>)
    ensures rows == BlockRows(BlocksAt(a, p.firstEid), BlocksAt(b, q.firstEid))
  {
    var left, right := BlocksAt(a, p.firstEid), BlocksAt(b, q.firstEid);
    PairsOrder();
    var keys := SortedList(PairLess, left.Keys + right.Keys);
    rows := [];
    for i: nat := 0 to |keys|
      invariant rows == RowsOver(left, right, keys[..i])
    {
      RowsNext(left, right, keys, i);
      var row := CompareBlock(left, right, keys[i]);
      rows := rows + [row];
    }
    assert keys[..|keys|] == keys;
  }

  /** Every differing member of every block is reported once, under its block's row, with both its texts; the rows
      are in strict order of stage and slot, one for every block that either side binds. */
  lemma BlocksAreExact(left: Blocks, right: Blocks, key: (string, nat)) returns (i: nat)
    requires key in left || key in right
    ensures i < |BlockRows(left, right)| && (BlockRows(left, right)[i].stage, BlockRows(left, right)[i].slot) == key
    ensures forall k | 0 <= k < |BlockRows(left, right)| && k != i ::
              (BlockRows(left, right)[k].stage, BlockRows(left, right)[k].slot) != key
    ensures forall k, l | 0 <= k < l < |BlockRows(left, right)| ::
              PairLess((BlockRows(left, right)[k].stage, BlockRows(left, right)[k].slot),
                       (BlockRows(left, right)[l].stage, BlockRows(left, right)[l].slot))
    ensures BlockRows(left, right)[i].values == []
            <==> forall m :: MemberRow(MembersOf(left, key), m) == MemberRow(MembersOf(right, key), m)
    ensures forall m | MemberRow(MembersOf(left, key), m) != MemberRow(MembersOf(right, key), m) ::
              ValueOf(MembersOf(left, key), MembersOf(right, key), m) in BlockRows(left, right)[i].values
  {
    var keys := BlockKeys(left, right);
    i :| 0 <= i < |keys| && keys[i] == key;
    PairsOrder();
    forall k | 0 <= k < |keys| && k != i ensures keys[k] != key {
      assert if k < i then PairLess(keys[k], keys[i]) else PairLess(keys[i], keys[k]);
    }
    MembersReported(MembersOf(left, key), MembersOf(right, key));
  }

  lemma MembersReported(left: map<string, string>, right: map<string, string>)
    ensures BlockValues(left, right) == [] <==> forall m :: MemberRow(left, m) == MemberRow(right, m)
    ensures forall m | MemberRow(left, m) != MemberRow(right, m) :: ValueOf(left, right, m) in BlockValues(left, right)
  {
    ValuesAreExact(left, right);
    var names := ChangedMembers(left, right);
    assert names == [] || names[0] in names;
    forall m | MemberRow(left, m) != MemberRow(right, m) ensures ValueOf(left, right, m) in BlockValues(left, right) {
      var k :| 0 <= k < |names| && names[k] == m;
      assert BlockValues(left, right)[k] == ValueOf(left, right, m);
    }
  }

  // ------------------------------------------------------------------ the other way round, and against itself

  function MirrorValues(values: seq<ValueRow>): seq<ValueRow> {
    seq(|values|, i requires 0 <= i < |values| => ValueRow(values[i].member, values[i].b, values[i].a))
  }

  function MirrorNotes(notes: seq<Note>): seq<Note> {
    seq(|notes|, i requires 0 <= i < |notes| =>
      match notes[i] case OnlyInA => OnlyInB case OnlyInB => OnlyInA case AllSame => AllSame)
  }

  /** The sides of a block's row exchanged; its label is taken from A's file where there is one. */
  predicate BlockSwaps(forth: BlockRow, back: BlockRow) {
    && back.stage == forth.stage && back.slot == forth.slot && back.aFile == forth.bFile && back.bFile == forth.aFile
    && back.notes == MirrorNotes(forth.notes) && back.values == MirrorValues(forth.values)
    && (forth.aFile == "" || forth.bFile == "" || BlockLabel(forth.aFile) == BlockLabel(forth.bFile)
        ==> back.name == forth.name)
  }

  lemma {:induction false} ChangedSwaps(left: map<string, string>, right: map<string, string>, names: seq<string>)
    ensures Changed(right, left, names) == Changed(left, right, names)
  {
    if names != [] {
      ChangedSwaps(left, right, names[..|names| - 1]);
    }
  }

  lemma ValuesSwap(left: map<string, string>, right: map<string, string>)
    ensures BlockValues(right, left) == MirrorValues(BlockValues(left, right))
  {
    StringsOrder();
    assert left.Keys + right.Keys == right.Keys + left.Keys;
    ChangedSwaps(left, right, Sorted(StringLess, left.Keys + right.Keys));
  }

  lemma NotesSwap(aFile: string, bFile: string, same: bool)
    ensures NotesOf(bFile, aFile, same) == MirrorNotes(NotesOf(aFile, bFile, same))
  {
  }

  /** Comparing the other way round gives the same blocks in the same order, with their sides exchanged. */
  lemma BlocksSwap(left: Blocks, right: Blocks)
    ensures |BlockRows(right, left)| == |BlockRows(left, right)|
    ensures forall i | 0 <= i < |BlockRows(left, right)| :: BlockSwaps(BlockRows(left, right)[i], BlockRows(right, left)[i])
  {
    assert left.Keys + right.Keys == right.Keys + left.Keys;
    var keys := BlockKeys(left, right);
    forall i | 0 <= i < |keys| ensures BlockSwaps(BlockRows(left, right)[i], BlockRows(right, left)[i]) {
      BlockSwapsAt(left, right, keys[i]);
    }
  }

  lemma BlockSwapsAt(left: Blocks, right: Blocks, key: (string, nat))
    ensures BlockSwaps(BlockRowOf(left, right, key), BlockRowOf(right, left, key))
  {
    ValuesSwap(MembersOf(left, key), MembersOf(right, key));
    NotesSwap(FileOf(left, key), FileOf(right, key), BlockRowOf(left, right, key).values == []);
  }

  /** Blocks compared with themselves have nothing to report. */
  lemma SelfBlocks(blocks: Blocks)
    ensures forall i | 0 <= i < |BlockRows(blocks, blocks)| :: BlockRows(blocks, blocks)[i].values == []
  {
    var keys := BlockKeys(blocks, blocks);
    forall i | 0 <= i < |keys| ensures BlockRows(blocks, blocks)[i].values == [] {
      MembersReported(MembersOf(blocks, keys[i]), MembersOf(blocks, keys[i]));
    }
  }
}
