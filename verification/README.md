# A verified model of the capture tools' own algorithms

The repository drives a GPU replay engine.  Around that engine sits code of its own: an A/B comparison
of two frames, an image kernel, a JSON writer, the action tree and what is recovered from it, the sweep
and the probe cache, and some smaller kernels.  This project models that code in Dafny and proves what
it is for.  The engine is an oracle: a function from what it was asked to what it answers.

`dafny verify dfyconfig.toml` checks everything.

| file | models | main results |
|---|---|---|
| `Basics.dfy`, `Arithmetic.dfy`, `Decimal.dfy`, `Sorting.dfy` | shared types, string order, products, decimal texts, sorted lists of a set | an integer's text reads back as the integer; a set has exactly one sorted list |
| `Occurrence.dfy`, `Alignment.dfy`, `AlignmentKeys.dfy` | `align` and its keys (`src/py/rdc_ab.py`) | the four rules build a maximal partial bijection in occurrence order, stronger evidence first; swapping the sides gives the inverse; a side aligned with itself gives the identity; passes that write the same named resources have one key, whatever else stands in their target rows |
| `AbPair.dfy`, `AbConstants.dfy`, `AbShaders.dfy`, `AbImages.dfy`, `AbDocument.dfy`, `AbSummary.dfy`, `AbReport.dfy` | the comparison document: fields and state, constant blocks, shader stages, pictures, and all of it over the aligned passes; its summary | every report is exact, in order and complete, and told of what the two bundles hold; every number of the summary is a count of rows; the document made the other way round is the same pairs with their sides exchanged, and its summary has the same numbers, with added and removed and cheaper and dearer exchanged (all but the pictures counted as compared); a bundle against itself differs in nothing; the picture budget is spent exactly and its counts overlap exactly beyond it |
| `JsonText.dfy`, `JsonWriter.dfy`, `JsonDocument.dfy` | the stateful writer (`src/cpp/output.cpp`) and a reader after RFC 8259, sections 2 to 7 | for every document tree the calls that follow its shape print text that reads back as the tree; the `shaders` document reads back exactly when every stage has its reflection; strings read back exactly when they hold no NUL |
| `Bmp.dfy` | BMP writer and reader (`src/cpp/image.cpp`) | the writer's every byte is fixed; what it writes is read back with size and colours, opaque; reads stay inside the file; where in the file each pixel is written and read |
| `Montage.dfy`, `Downscale.dfy`, `PixelDelta.dfy` | the rest of the image kernel | every sheet pixel is its own cell's tile pixel or the background; boxes partition the source, averages are the floors of their boxes' means and stay between the extremes; the difference counts mean what they say; where every byte of a sheet comes from |
| `ActionTree.dfy`, `PassCosts.dfy` | flattening, passes from depths, passes from calls, the cost fold | scanning depths recovers the tree; rows are lost exactly beyond the depth limit; the passes are those of the marker rows that hold a call, with what is inside them; the bucketed fold refines the naive scan without assuming anything of addition, and its maximum is one |
| `Sweep.dfy`, `ProbeFile.dfy`, `ProbeCut.dfy`, `ProbeProtocol.dfy` | sweep rules, probe cache file whole and cut short, probe over many processes | where a sweep ends and what a cap leaves; the file reads back exactly for its own identity; at every length, when a short file is refused, what it answers otherwise and when that is right; the file stays truthful over every run in which the sweeps taken for cold start on an untouched engine and no short file does harm, which is exactly what such a sweep and such a file need |
| `PositionBounds.dfy` | clip and NDC boxes | merging is the fold of the streams together; boxes are the tightest, around the vertices that the bytes hold |
| `Watch.dfy`, `WatchValues.dfy`, `Tokenizer.dfy`, `StateDiff.dfy`, `Histogram.dfy`, `Bindings.dfy` | smaller kernels | change rows lose nothing; equal texts are of equal values, for any nesting; a run reads exactly the blocks it looks at; quoting and splitting round-trips exactly for plain arguments; the merge reports exactly the differing fields; groups conserve the total; the declared span is the tightest; when the span and the reports on bindings are right |

## Where code and promise part

Where the code does not do what its documentation or comments say, the model keeps the code, a lemma
shows the input, and where the failure has a condition, the exact one is proved.

- A bound shader without reflection leaves its row object open (`src/cpp/commands_state.cpp:627-640`).
  `JsonDocument.ShadersReadBack`: whatever the header and the stages, the document is read if and only if no
  bound stage lacks its reflection; `JsonDocument.AbandonedObjectIsRefused` is the smallest input.
- `probe` calls a process cold until its first `MoveToEvent`; `counters` makes the engine work without
  one (`src/cpp/commands_frame.cpp:1607`).  `ProbeProtocol.EarlyWorkBreaksTheFile` shows a file that is no
  cold sweep's answer.  `ProbeProtocol.StoredWhenUntouched` says when: what a sweep stores is truthful for
  every engine exactly when nothing came before the sweep in its process.  `ProbeProtocol.FileStaysTruthful`
  holds for every run in which each sweep that misses the file and is taken for cold starts that way and no write
  ends in a harmful short file.
- A marker path keeps an empty name inside a named one: `ActionTree.PathJoinsNames` is an equivalence, with an input
  in `ActionTree.NamelessMarkerShows`.
- The truncation flag of the action tree also goes up when nothing is lost (`ActionTree.FlagWithoutLoss`).
  `ActionTree.FlagTellsHeight` says exactly when it goes up, and `ActionTree.RowsLostBeyond` exactly when rows
  are missing: when an action sits at the depth limit or beyond it.
- `annotate` promises that a row which already carries a name is returned as it was, and annotates it again:
  `AbPair.AnnotatesAgain` is an input, with the exact condition in `AbPair.AnnotateChanges`.
- A pass's target key joins resource names with a separator that a name may hold, so passes with different names can
  have one key: `Alignment.TargetKeysRunTogether`; `Alignment.TargetKeyTellsNames` says exactly what a key tells.
- That one side wrote no state document is not to be reported as an empty state (`src/py/rdc_ab.py:522-532`), and is
  (`src/py/rdc_ab.py:954-964`): exactly when the other side has a document with rows in it, and then every one of
  them.  `AbPair.MissingDocument`, with an input in `AbPair.MissingDocumentMisleads`.
- A stage that one side alone binds is labelled `only-in-b`, whichever side that is, when its entry is an empty
  object, one without even a stage name: `AbShaders.StageRowSwaps` is an equivalence, `AbShaders.EmptyStageMisleads`
  an input.
- A picture that was skipped for want of budget is counted as compared too.  `AbDocument.SkippedAreCounted`:
  `imagesCompared` is the pictures truly compared plus the skipped ones, and the two counts overlap exactly when
  more pairs differ than `--image-detail` allows; `AbDocument.CountedTwice` is an input.  The terminal line
  subtracts one count from the other (`src/py/rdc_ab.py:1177`) and is right; the reader misled is the one of the
  Markdown table, which prints both as they are (`src/py/rdc_ab_render.py:338-339`), or of the JSON.
- A binding range that runs past the last register, or ends at it, is held to declare nothing, because its 32-bit
  end wraps: `Bindings.TestIsExact`, for every range.  So a register is reported undeclared that is declared
  (`Bindings.LastRegisterIsReported`); the reports on all bindings of a class are the deserved ones exactly when each
  register of such a range is declared by something else as well (`Bindings.ReportsAreDeserved`).
- The reported span misses registers it is meant to hold exactly when some range runs past the last register and none
  is unbounded or ends at it (`Bindings.SpanHoldsAll`); `Bindings.SpanMissesRegisters` is an input.  The first
  register and the count of a range are any two 32-bit numbers of the captured root signature; nothing in the
  repository refuses a pair whose sum is too large.
- A constant image that is scaled down stays constant exactly when no box is so large that its 32-bit sum or count
  spoils a channel's value (`Downscale.ConstantImage`; `Downscale.ConstantBox` for one box of any size).  A white
  image of 8192 by 8192 pixels becomes one dark grey pixel: `Downscale.WhiteTurnsGrey`.
- The `cached` member of `probe` says that a file was accepted.  It is wrong about the answer exactly when the
  file holds a shorter prefix than was asked for, and the range is swept again (`ProbeProtocol.Session.CmdProbe`,
  last clause); `ProbeProtocol.CachedMisleads` is such a file.
- The note of a pair aligned by call order says `pass N of each` with A's number only.  It is right for B exactly
  when the two numbers agree: `Alignment.CallOrderNoteIsRight`, with an input in `Alignment.CallOrderNoteMisleads`.
- A truncated probe file and one with no rows are to be refused (`src/cpp/bundle.cpp:635-636`).  A file with no rows
  is accepted (`ProbeCut.NoRowsAreAccepted`).  Truncated files come of writes whose errors are ignored before the
  rename (`src/cpp/bundle.cpp:718-732`).  For every length: such a file is refused if and only if the cut lies before
  the first digit of the scanned number, or inside a row before the first digit of its last field
  (`ProbeCut.CutFileIsRefused`).  Otherwise it answers for the cache whose own file it is, but for a last newline
  (`ProbeCut.CutFileAnswers`), and that is the answer written exactly when at most the last newline is missing
  (`ProbeCut.CutFileIsWhole`).  `ProbeCut.ShortRowMisleads` is an input with a row that no sweep reported,
  `ProbeCut.ShortNumberMisleads` one with a prefix that was never stored.  In the protocol a short file of a cold
  sweep is a possible outcome of every write; `ProbeProtocol.ShortIsTruthful` says exactly when it is truthful.
- A probe file whose capture or engine line cannot be read whole, being too long for the reader's buffer or ending
  in a carriage return, is never accepted, not even by its own writer: `ProbeFile.OwnFileReadsBack` is an
  equivalence, with an input in `ProbeFile.LongPathIsNeverRead`.

## Model

| member | source | states |
|---|---|---|
| Occurrence.RuleStepIsSymmetric | src/py/rdc_ab.py:389-405 | one rule's matches, with the sides exchanged, are the inverse of its matches |
| Occurrence.RuleStepKeepsOneToOne | src/py/rdc_ab.py:389-405 | a rule never pairs a pass twice, on either side |
| Occurrence.RuleStepIsMaximal | src/py/rdc_ab.py:389-405 | after a rule no unpaired A pass and untaken B pass share its non-empty key |
| Occurrence.RuleStepCount | src/py/rdc_ab.py:389-405 | per key a rule makes exactly min(unpaired in A, untaken in B) pairs |
| Occurrence.RuleStepOnSelf | src/py/rdc_ab.py:389-405 | a rule run on one list against itself pairs every keyed pass with itself |
| Alignment.PassMarkers | src/py/rdc_ab.py:341-364 | the loop over events and passes computes the marker table |
| Alignment.MarkersAreFirst | src/py/rdc_ab.py:341-364 | a pass's key is the marker of the first marked event inside it, and empty when it has none |
| Alignment.LeafIsInnermost | src/py/rdc_ab.py:453-455 | the leaf of a path is what follows its last separator |
| AlignmentKeys.StripIs | src/py/rdc_ab.py:453-455 | stripping takes the blanks off both ends and nothing else |
| AlignmentKeys.LeafOfPath | src/py/rdc_ab.py:453-455 | without a separator the leaf is the path without the blanks around it |
| Alignment.TargetKeyGoesByNames | src/py/rdc_ab.py:458-473 | a target key goes by the kind and the set of resource names alone, and is empty exactly without names or for a dispatch |
| Alignment.TargetKeyTellsNames | src/py/rdc_ab.py:458-473 | two non-empty keys are equal exactly when kinds and the names, split at the separator, are; so exactly for equal name sets when no name holds the separator |
| Alignment.TargetKeysRunTogether | src/py/rdc_ab.py:458-473 | two passes with different resource names and one non-empty key |
| AlignmentKeys.TargetIdOf | src/py/rdc_ab.py:468-470 | a target row with blanks or not in front, an id with or without `res`, and anything behind a blank is about the resource of that id |
| AlignmentKeys.SameResourcesSameKey | src/py/rdc_ab.py:458-473 | two passes of one kind, no dispatches, whose rows start with ids of the same named resources have one key, whatever follows the ids; the key is empty exactly without a named resource |
| Alignment.Aligner.Pair | src/py/rdc_ab.py:402-405 | one match adds one pair and changes the three tables nowhere else |
| Alignment.Aligner.CollectQueues | src/py/rdc_ab.py:391-395 | the queues hold each key's unpaired A passes in pass order |
| Alignment.Aligner.Serve | src/py/rdc_ab.py:396-405 | one B pass takes the first of its key's queue, and leaves what the rule says is left |
| Alignment.Aligner.Match | src/py/rdc_ab.py:389-405 | the nested matcher makes exactly the pairs of the occurrence rule and notes each of them |
| Alignment.Aligner.CallOrder | src/py/rdc_ab.py:418-431 | the call-order loop over B's loose passes makes exactly the pairs of the occurrence rule on call kinds |
| Alignment.AlignedIsSymmetric | src/py/rdc_ab.py:367-450 | through all four rules, aligning b with a gives the inverse of aligning a with b |
| Alignment.AlignedIsOneToOne | src/py/rdc_ab.py:367-450 | the alignment is a partial bijection between the two pass lists |
| Alignment.AlignedIsMaximal | src/py/rdc_ab.py:367-450 | no unmatched pass of A and of B share a path, a leaf, a target key, or both sit in no marker and are of one kind |
| AlignmentKeys.StrongerEvidenceFirst | src/py/rdc_ab.py:407-431 | every pair goes by path, leaf, targets or call kind; and where it goes by weaker evidence than one of the first three, all that share that evidence with either pass are matched with others by evidence as strong |
| AlignmentKeys.LeftOverPassesDiffer | src/py/rdc_ab.py:407-473 | two passes of one kind left over on the two sides never write the same named resources, nor share a marker or its leaf |
| Alignment.AlignedWithItself | src/py/rdc_ab.py:367-450 | a side aligned with itself pairs every pass with itself and with nothing else |
| Alignment.RunRules | src/py/rdc_ab.py:385-431 | the tables after the four rules are the alignment, its notes name the rule that made each pair, and the taken flags are its B side |
| Alignment.Align | src/py/rdc_ab.py:367-450 | the rows are every A pass once in order, then every unmatched B pass once in order, with status and note |
| Alignment.CallOrderNoteIsRight | src/py/rdc_ab.py:418-431 | the note of a call-order pair is the one the comparison made the other way round gives exactly when both passes have one number |
| Alignment.CallOrderNoteMisleads | src/py/rdc_ab.py:418-431 | an input whose note names a pass that B does not have |
| Alignment.RowCount | src/py/rdc_ab.py:433-450 | a pair costs one row instead of two |
| Alignment.SelfRows | src/py/rdc_ab.py:433-450 | a side against itself has one "same" row per pass and no note that it moved |
| AbPair.AnnotateChanges | src/py/rdc_ab.py:476-485 | annotation leaves a text as it is exactly when it mentions no named resource |
| AbPair.AnnotatesAgain | src/py/rdc_ab.py:476-485 | a row that already carries a name gains it once more |
| AbReport.AnnotateConcat | src/py/rdc_ab.py:476-485 | annotation goes piece by piece: a text cut where no id runs on is annotated in its two parts |
| AbReport.AnnotateInside | src/py/rdc_ab.py:476-485 | an id gains its name in brackets right behind it when it has one, and what is around it is annotated by itself |
| AbReport.DepthIsAnId | src/py/rdc_ab.py:488-499 | a bare positive number is annotated as the resource of that id |
| AbPair.DifferingIsExact | src/py/rdc_ab.py:502-519 | every field whose texts differ is reported with both, and no other; no report exactly for equal texts |
| AbPair.DifferingMirrors | src/py/rdc_ab.py:502-519 | the changed fields the other way round are the same fields with their texts exchanged |
| AbReport.ChangesTell | src/py/rdc_ab.py:502-519 | each of the seven fields of a pass is reported exactly when its texts on the two sides differ, and then with both |
| AbPair.StateRemovedIsExact | src/py/rdc_ab.py:954-964 | removed is exactly what only A's state has, kind by kind, and a depth target that changed |
| AbReport.StateTells | src/py/rdc_ab.py:954-964 | with both documents there: removed are the rows of A, list by list, that no row of the same list of B reads like, and A's depth target when the two differ |
| AbPair.MissingDocument | src/py/rdc_ab.py:522-557 | with a state document missing, removed is empty exactly when A has no rows and added exactly when B has none; and every row of the other side is reported |
| AbPair.MissingDocumentMisleads | src/py/rdc_ab.py:522-557 | an input: no document for B, and A's shader is reported removed |
| AbPair.CountersSwap | src/py/rdc_ab.py:764-794 | the other way round the costs and row counts exchange, cheaper becomes dearer, and over exact sums the two percentages undo each other |
| AbReport.CostsAdd | src/py/rdc_passes.py:192-201 | the cost rows of a range count and sum up part by part; one row counts exactly inside the range, ends included (AbReport.OneCost) |
| AbConstants.CompareCbuffers | src/py/rdc_ab.py:620-650 | the sorted loops over blocks and members compute the block rows |
| AbConstants.ValuesAreExact | src/py/rdc_ab.py:641-645 | a block's value rows are its differing members, each once, in strict name order, none missed and none added |
| AbConstants.BlocksAreExact | src/py/rdc_ab.py:620-650 | every block either side binds has exactly one row, the rows are strictly sorted by stage and slot, and each differing member is reported in its block's row with both texts |
| AbReport.BlocksTell | src/py/rdc_ab.py:620-650 | a block's row names each side's own file, says exactly when one side alone has it or nothing moved, and lists exactly the differing members with A's text and B's |
| AbConstants.BlockLabelOf | src/py/rdc_ab.py:613-617 | a block's label is what follows the event in its file's name |
| AbConstants.BlocksSwap | src/py/rdc_ab.py:620-650 | the other way round the same blocks in the same order, with files, notes and values exchanged |
| AbShaders.CompareShaders | src/py/rdc_ab.py:653-688 | the sorted loop over stages, scalar fields and row lists computes the stage rows |
| AbShaders.StageChangesAreExact | src/py/rdc_ab.py:653-688 | a stage's changes are exactly its differing scalar fields and the rows of its five lists that one side lacks |
| AbReport.StageTells | src/py/rdc_ab.py:670-679 | a row of one of the five lists that the other side's list lacks is reported as gone or new |
| AbReport.DifferentTells | src/py/rdc_ab.py:680-688 | the rows called different are exactly the stages that both sides bind with unequal hashes |
| AbShaders.StageRowSwaps | src/py/rdc_ab.py:653-688 | a stage's row the other way round is its row with the sides exchanged, exactly unless one side alone binds it with an empty entry; a one-sided stage with anything in it carries its own side's label, one without is `only-in-b` both ways |
| AbImages.LastReadbacks | src/py/rdc_ab.py:749-761 | the loop keeps, per slot, the last readback inside the range |
| AbImages.LatestIsLast | src/py/rdc_ab.py:749-761 | in a list sorted by event that is the latest one of the slot, and a slot without any is missing |
| AbImages.CompareImages | src/py/rdc_ab.py:797-845 | the loop over the sorted slots computes the picture rows and what it leaves of the budget |
| AbImages.ImagesFit | src/py/rdc_ab.py:797-845 | every slot has its row with the verdict it deserves, and of the pairs that differ exactly the first that the budget allows are decoded |
| AbReport.ImagesTell | src/py/rdc_ab.py:817-845 | every slot of either side has one row, in order: one-sided by the side that has a file, identical for equal bytes, else decoded or skipped and called different |
| AbImages.BudgetIsSpent | src/py/rdc_ab.py:834-843 | the decoded pictures are the lesser of the pairs that differ and the budget, the skipped ones the rest |
| AbImages.ImagesSwap | src/py/rdc_ab.py:797-845 | the other way round the same slots, those of one side named after the other, and the same pictures identical and differing |
| AbDocument.BuildDocument | src/py/rdc_ab.py:926-1014 | one member per aligned row, in order, with everything the comparison says of it and what the rows before it left of the budget; the summary counts them; AbReport.PairTells and AbReport.OneSidedTells say what a member holds of each side |
| AbReport.StageInDocument | src/py/rdc_ab.py:653-688 | a stage both passes bind at their first events stands in the document with both hashes and the verdict they deserve; AbReport.VerdictTells says the same of one stage row |
| AbReport.BlockInDocument | src/py/rdc_ab.py:620-650 | a block that either binds at its first event stands there with its files and differing members |
| AbReport.PicturesInDocument | src/py/rdc_ab.py:797-845 | the pictures of a pair are those of the latest readbacks in each pass's own range, and none when not asked for |
| AbReport.DetailTells | src/py/rdc_ab.py:935-935 | no picture is decoded for an `--image-detail` that is not positive, else as many differing pairs as it says |
| AbReport.SummaryCounts | src/py/rdc_ab.py:980-985 | same, added, removed, structure and state numbers are the numbers of passes with that status, a changed field, a state row gone or new |
| AbReport.SummaryCosts | src/py/rdc_ab.py:993-995 | compared, cheaper and dearer are the numbers of passes with such a verdict |
| AbReport.SummarySums | src/py/rdc_ab.py:986-992 | constants, shaders and pictures are the numbers of blocks with a moved value, stages called different, pictures called identical or different, pictures skipped |
| AbReport.ShadersDifferentTells | src/py/rdc_ab.py:987-988 | `shadersDifferent` is, over all pass pairs, the number of stages both bind with unequal hashes |
| AbDocument.SkippedAreCounted | src/py/rdc_ab.py:989-992 | imagesCompared is the pictures truly compared plus those not compared; these are what differs beyond the budget, so the counts overlap exactly when more pairs differ than it allows |
| AbDocument.CountedTwice | src/py/rdc_ab.py:989-992 | one differing pair and no budget: one picture compared, one not compared, none truly compared |
| AbDocument.PairSwaps | src/py/rdc_ab.py:953-985 | state rows swap, changes mirror, blocks, pictures and costs exchange their sides, and so does each labelled stage |
| AbDocument.DocumentsSwap | src/py/rdc_ab.py:926-985 | every pair of one document is a pair of the other, with all sides exchanged, its stages exactly as far as they are labelled |
| AbDocument.RemovedIsAdded | src/py/rdc_ab.py:941-952 | a pass that one document calls removed is called added by the other |
| AbSummary.SummariesSwap | src/py/rdc_ab.py:980-996 | the summary the other way round: same, structure, state, constant, shader, skipped picture and compared counter numbers agree, added and removed exchange, cheaper and dearer exchange |
| AbDocument.SelfPair | src/py/rdc_ab.py:502-688 | a pass against itself has no change, no state row, no constant, no shader and no picture difference |
| AbDocument.SelfComparison | src/py/rdc_ab.py:926-1014 | a readable bundle against itself: nothing added, removed, changed, skipped, cheaper or dearer, and every picture identical |
| JsonText.JsonEscape | src/cpp/output.cpp:31-57 | the escaping loop computes the escape of the text up to its first NUL |
| JsonText.EscapeReadsBack | src/cpp/output.cpp:31-57 | an escaped string in quotes reads back as the text up to its first NUL |
| JsonText.StringRoundTrip | src/cpp/output.cpp:31-57 | a string reads back as itself exactly when it holds no NUL |
| JsonText.NumberReadsBack | src/cpp/output.cpp:100-107 | an integer reads back as itself |
| JsonWriter.Writer.FieldText | src/cpp/output.cpp:86-98 | prints one member line at the current indentation and changes no state |
| JsonWriter.Writer.FieldInt | src/cpp/output.cpp:100-107 | likewise for a number |
| JsonWriter.Writer.Flag | src/cpp/output.cpp:112-119 | likewise for a boolean |
| JsonWriter.Writer.ArrayOpen | src/cpp/output.cpp:130-138 | opens an array, saves the first-row flag and sets it |
| JsonWriter.Writer.ArrayClose | src/cpp/output.cpp:140-151 | closes it and restores the flag when one was saved |
| JsonWriter.Writer.TakeSeparator | src/cpp/output.cpp:156-161 | answers the separator and clears the flag |
| JsonWriter.Writer.Row | src/cpp/output.cpp:163-174 | one string item behind its separator |
| JsonWriter.Writer.ObjectRow | src/cpp/output.cpp:179-190 | one ready-made item behind its separator |
| JsonWriter.Writer.ObjectOpen | src/cpp/output.cpp:196-205 | opens an object item behind its separator, one deeper |
| JsonWriter.Writer.ObjectOpenKey | src/cpp/output.cpp:223-230 | opens an object member, one deeper |
| JsonWriter.Writer.ObjectClose | src/cpp/output.cpp:209-217 | closes it, one less deep |
| JsonDocument.NodePrints | src/cpp/output.cpp:86-230 | the calls of a member's value print exactly its text, and restore indentation, flag and stack |
| JsonDocument.NodeReadsBack | src/cpp/output.cpp:86-230 | that text reads back as the value, whatever follows |
| JsonDocument.DocumentReadsBack | src/cpp/output.cpp:86-230 | for every tree of nested objects, arrays, empty arrays, object items and scalars, the printed document reads back as that tree and the writer's state is restored |
| JsonDocument.ShadersReadBack | src/cpp/commands_state.cpp:597-708 | for any header members and any list of stages, the document is read if and only if no bound stage lacks its reflection, and then as the tree it stands for |
| JsonDocument.BareStageIsRefused | src/cpp/commands_state.cpp:625-640 | with a stage without reflection, wherever in the list, the reader refuses the document |
| Bmp.PutLE16 | src/cpp/image.cpp:18-22 | writes a two-byte little-endian field and nothing else |
| Bmp.PutLE32 | src/cpp/image.cpp:24-30 | writes a four-byte little-endian field and nothing else |
| Bmp.FieldReadsBack | src/cpp/image.cpp:24-36 | a four-byte field reads back as its value |
| Bmp.ShortFieldReadsBack | src/cpp/image.cpp:18-41 | a two-byte field reads back as its value |
| Bmp.LeastByteFirst | src/cpp/image.cpp:18-30 | fields have their least byte first |
| Bmp.WriteBMP | src/cpp/image.cpp:52-102 | succeeds exactly for sizes that fit, and then fixes every byte of the file: header fields, rows bottom-up, blue first, padded with zeros |
| Bmp.PixelIsWritten | src/cpp/image.cpp:78-96 | where each pixel's blue, green and red stand in a written file |
| Bmp.ReadBMPImage | src/cpp/image.cpp:114-192 | refuses and loads exactly as the exact-arithmetic reading says, top-down files and 32-bit pixels included |
| Bmp.HeaderIsRead | src/cpp/image.cpp:138-160 | what of a loaded image is where in the header, and which headers are loaded |
| Bmp.PixelIsRead | src/cpp/image.cpp:174-190 | where each channel of a pixel is read from, for rows from the top and from the bottom, with three bytes and with four |
| Bmp.NeedIsExact | src/cpp/image.cpp:161-172 | the size test's machine arithmetic never wraps |
| Bmp.SourceInside | src/cpp/image.cpp:177-190 | every pixel the reader asks for lies inside the file |
| Bmp.StrideAgrees | src/cpp/image.cpp:164-165 | the reader's rounded-up stride is the writer's row and its padding |
| Bmp.LoadedIsValid | src/cpp/image.cpp:114-192 | whatever the file, a loaded image is valid |
| Bmp.ImageRoundTrip | src/cpp/image.cpp:52-192 | what was written is read back with width, height and colours, alpha 255 |
| Montage.MakeMontage | src/cpp/image.cpp:255-291 | the sheet has the size of its grid, and each of its pixels is what its place in the grid says |
| Montage.PlaceTile | src/cpp/image.cpp:273-289 | copying one tile makes its own cell right and disturbs no other pixel |
| Montage.TileShows | src/cpp/image.cpp:273-289 | every valid tile's top left corner, cut to the cell, shows unchanged in its own cell |
| Montage.TileBytes | src/cpp/image.cpp:273-289 | the same byte for byte, with the places in the sheet and in the tile as numbers; a sheet has as many rows of cells as its tiles need (Montage.RowsNeeded) |
| Montage.ElseBackground | src/cpp/image.cpp:265-271 | a pixel in no tile's corner is the background |
| Montage.CellsApart | src/cpp/image.cpp:278-281 | no pixel lies in the cells of two tiles |
| Downscale.BoxesGrow | src/cpp/image.cpp:215-226 | boxes along an axis are never empty, the first starts at 0 and the last ends at the size |
| Downscale.BoxesPartition | src/cpp/image.cpp:215-226 | every source coordinate lies in exactly one box; each box starts at its share, rounded down (Downscale.StartIsShare) |
| Downscale.AverageBox | src/cpp/image.cpp:227-243 | the loops over a box compute its averages with 32-bit sums and count |
| Downscale.DownscaleImage | src/cpp/image.cpp:200-247 | an invalid image or limit gives none, an image that fits is itself, any other becomes the image of its box averages |
| Downscale.ScaledChannel | src/cpp/image.cpp:211-247 | the scaled image is valid and channel k of its pixel (x, y) is the mean of that pixel's own box |
| Downscale.MeanOfBoxBetween | src/cpp/image.cpp:227-243 | an output channel lies between the least and the greatest value of its box |
| Downscale.MeanIsFloor | src/cpp/image.cpp:227-243 | an output channel is the sum of its box over its pixels, rounded down, when the sum fits |
| Downscale.ConstantBox | src/cpp/image.cpp:227-243 | a constant box of any size keeps its value exactly when the value is zero, or the 32-bit count is not zero and the value times it fits in 32 bits |
| Downscale.ConstantImage | src/cpp/image.cpp:200-247 | a constant image scaled down is constant exactly when every box keeps every channel's value |
| Downscale.WhiteTurnsGrey | src/cpp/image.cpp:227-243 | an input: 8192 by 8192 white pixels become one of grey level 63 |
| PixelDelta.ImagePixelDelta | src/cpp/image.cpp:329-377 | incomparable exactly for invalid images or unequal sizes, else the counts and the heat picture |
| PixelDelta.DeltaIsSymmetric | src/cpp/image.cpp:346-374 | which image comes first does not matter |
| PixelDelta.DeltaMeans | src/cpp/image.cpp:346-374 | no pixel differs exactly when all bytes are equal; count, greatest and summed difference bound each other |
| PixelDelta.PixelTells | src/cpp/image.cpp:346-357 | a pixel's difference is the greatest of its four channels' |
| PixelDelta.DeltaTells | src/cpp/image.cpp:358-366 | the count is of the pixels whose bytes differ, the maximum is the greatest difference of a pixel |
| PixelDelta.HeatTells | src/cpp/image.cpp:367-374 | the heat picture's four bytes of a pixel are 0, eight times its difference up to 255 twice, and 255 |
| ActionTree.Collector.CollectActionNodes | src/cpp/actions.cpp:29-63 | appends the forest's rows in preorder and raises the flag exactly when the walk meets its limit |
| ActionTree.FlagTellsHeight | src/cpp/actions.cpp:33-37 | the flag goes up exactly for markers nested to the limit; without it every action has its row |
| ActionTree.FlagWithoutLoss | src/cpp/actions.cpp:33-37 | the flag can go up with every row written |
| ActionTree.RowsLostBeyond | src/cpp/actions.cpp:33-37 | rows are missing exactly when an action sits at the depth limit or beyond, and then the flag is up |
| ActionTree.ChainIsLost | src/cpp/actions.cpp:33-37 | markers that nest 64 deep have all their rows, and 65 do not |
| ActionTree.CallsBelow | src/cpp/commands_image.cpp:41-52 | the depth scan collects the calls of the rows that are deeper |
| ActionTree.CallsBelowAre | src/cpp/commands_image.cpp:41-52 | those calls are, in row order, the calls of exactly the rows behind it up to which nothing is as shallow |
| ActionTree.PassList | src/cpp/commands_image.cpp:30-70 | the loop over marker rows makes their passes |
| ActionTree.PassesTell | src/cpp/commands_image.cpp:35-68 | exactly the marker rows with a last call that is not event 0 have a pass, one each and in row order; it has that row's event, depth, name and full path, the calls inside in order, and the last of them as its picture |
| ActionTree.FlatScanRecoversTree | src/cpp/commands_image.cpp:30-70 | for every forest that is not truncated the passes found by depth are the tree's: each marker with the calls of its own subtree in preorder |
| ActionTree.FlatIsPreorder | src/cpp/actions.cpp:38-62 | without truncation the rows are those of the actions in preorder, each with its own event, kind and name |
| ActionTree.RowsCarryTheirMarkers | src/cpp/actions.cpp:42-61 | every row carries the path and the number of the markers around it |
| ActionTree.PathJoinsNames | src/cpp/actions.cpp:53-60 | a path is the join of the non-empty names exactly when no nameless marker sits in a named one |
| PassCosts.PassesFromActions | src/cpp/commands_frame.cpp:1500-1522 | the loop that extends the last pass computes the passes of the calls |
| PassCosts.GroupsAreMaximalRuns | src/cpp/commands_frame.cpp:1500-1522 | the passes' calls are the calls, cut into maximal runs of one path |
| PassCosts.PassesAreOrdered | src/cpp/commands_frame.cpp:1500-1522 | calls in event order give ordered, disjoint passes that hold every call |
| PassCosts.FoldPassCosts | src/cpp/commands_frame.cpp:1437-1498 | upper bound, index buckets and the fold give each pass the cost of the ids that land in it |
| PassCosts.BucketIsExact | src/cpp/commands_frame.cpp:1452-1465 | a pass's bucket holds exactly the results of the counter inside its range and before the next pass, in their order |
| PassCosts.MaxIsGreatest | src/cpp/commands_frame.cpp:1487-1492 | for a comparison as floating point has it, the maximum of a bucket is one of its values and none exceeds it |
| PassCosts.CostTells | src/cpp/commands_frame.cpp:1478-1495 | a row has its pass's number, name and range, the number of calls that land in it, and of its bucket the size, the sum and the maximum, which goes on by one addition a value (PassCosts.SumGoesOn) |
| PassCosts.BucketsRefineScan | src/cpp/commands_frame.cpp:1437-1498 | for passes that end before the next starts, event count, measured count, greatest value and left-to-right sum are those of scanning every result for every pass |
| PassCosts.ScanNeedsApart | src/cpp/commands_frame.cpp:1457-1463 | for any other passes a call is lost: the condition is exact |
| PassCosts.FrameCosts | src/cpp/commands_frame.cpp:1437-1522 | a frame's own passes meet the fold's precondition, cost what the naive scan says, and their event counts add up to the calls |
| Sweep.SweepRules.Feed | src/cpp/common.cpp:91-109 | one id's answer gives the step and the state that the ids seen so far determine |
| Sweep.SweepForEvents | src/cpp/bundle.cpp:777-818 | the sweep ends at the first id a rule stops it at, with exactly the ids with state it looked at |
| Sweep.FoundIsExact | src/cpp/bundle.cpp:787-803 | those ids are the ones with state among the scanned, strictly increasing |
| Sweep.EmptyStopMeans | src/cpp/common.cpp:93-100 | a stop for emptiness is a run of 256 empty ids behind a hit |
| Sweep.StepMeans | src/cpp/common.cpp:91-109 | which of the three rules stops a sweep at an id, by the hits up to it, the cap and the budget, and 256 empty ids |
| Sweep.EndIsFirstStop | src/cpp/bundle.cpp:787-815 | no rule stops the sweep before its end, and only a rule ends it before its range does |
| Sweep.CappedIsPrefix | src/cpp/common.cpp:101-105 | a capped sweep's ids are the first ids of the uncapped one, exactly as many as the cap allows |
| Sweep.CapStopMeans | src/cpp/common.cpp:101-105 | a sweep that `--max-events` stopped has exactly that many ids |
| Sweep.BudgetStopsAtTheEnd | src/cpp/bundle.cpp:823-833 | with the bounds a sweep is given the id budget can only stop it at its last id, every id having state |
| ProbeFile.ReadProbeCache | src/cpp/bundle.cpp:637-704 | the line loop accepts and fills exactly what the line-by-line reading does |
| ProbeFile.RowReadsBack | src/cpp/bundle.cpp:684-728 | a written row's line is read as that row |
| ProbeFile.NumberScans | src/cpp/bundle.cpp:684-692 | a number is read behind any blanks, with either sign or none |
| ProbeFile.WordScans | src/cpp/bundle.cpp:684-692 | a word is read behind any blanks, 63 characters of it at the most |
| ProbeFile.LineEnds | src/cpp/bundle.cpp:655-658 | a line reads the same with a newline or with a carriage return in front of it |
| ProbeFile.PrintCache | src/cpp/bundle.cpp:708-733 | the line-by-line printing gives the file's text |
| ProbeFile.FileReadsBack | src/cpp/bundle.cpp:637-733 | a written file is read back as the same rows and prefix by the same capture, engine and bound, and refused by any other |
| ProbeFile.OwnFileReadsBack | src/cpp/bundle.cpp:637-733 | a process reads its own file back exactly when its identity's lines can be read whole, and is refused otherwise |
| ProbeFile.LongPathIsNeverRead | src/cpp/bundle.cpp:646-658 | an input: the file of a path of 1100 characters is refused by its own process |
| ProbeCut.CutFileIsRefused | src/cpp/bundle.cpp:634-704 | for every cache and every length, a cut file is refused exactly by another identity or when the cut lies before the scanned number's first digit or, inside a row, before its last field's first digit |
| ProbeCut.CutFileAnswers | src/cpp/bundle.cpp:634-704 | for every length, what a cut file answers is exactly the clean cache whose own file it is with or without the last newline |
| ProbeCut.CutFileIsWhole | src/cpp/bundle.cpp:634-704 | a cut file gives the answer that was written exactly when at most the last newline is missing |
| ProbeCut.ShortRowMisleads | src/cpp/bundle.cpp:684-732 | an input: two characters short, and the row has another parameter count |
| ProbeCut.ShortNumberMisleads | src/cpp/bundle.cpp:670-732 | an input: scanned 12 cut to 1, and a prefix that was never stored |
| ProbeCut.NoRowsAreAccepted | src/cpp/bundle.cpp:634-704 | a file with no rows is accepted |
| ProbeProtocol.InvKept | src/cpp/commands_frame.cpp:2103-2176 | every step keeps the invariant that what the file answers is a cold sweep's prefix, unless it begins a sweep taken for cold on an engine that has done something, or puts a harmful short file in place |
| ProbeProtocol.FileStaysTruthful | src/cpp/commands_frame.cpp:2103-2176 | over every run of probes, kills, restarts, lost and short writes and other commands, also ones that work before their first move, whatever the file answers is the cold rows of the prefix it names, as long as no sweep taken for cold starts on an engine that has done something and no short file is a harmful one |
| ProbeProtocol.StoredWhenUntouched | src/cpp/commands_frame.cpp:2129-2164 | the first condition is exact: what a sweep stores is truthful for every engine if and only if nothing came before it in its process |
| ProbeProtocol.ShortIsTruthful | src/cpp/bundle.cpp:718-732 | a short file of a cold sweep is truthful if and only if it is refused, lacks nothing but its last newline, or is cut in its scanned number and the shorter prefix has no rows either |
| ProbeProtocol.CachedAnswerIsCold | src/cpp/commands_frame.cpp:2118-2164 | an answer from the file equals a fresh cold sweep, also for a smaller range |
| ProbeProtocol.SweptAnswerIsCold | src/cpp/commands_frame.cpp:2129-2164 | in such a run the answer of a sweep taken for cold is the cold answer |
| ProbeProtocol.ScanFollows | src/cpp/commands_frame.cpp:2135-2154 | any other sweep's rows are those of everything its process did before it |
| ProbeProtocol.RowsAre | src/cpp/commands_frame.cpp:2135-2141 | a sweep's rows are those of exactly the ids at which the engine shows something, each with what it shows, in order |
| ProbeProtocol.KilledSweepKeepsPrefix | src/cpp/commands_frame.cpp:2140-2146 | a killed cold sweep whose writes succeed leaves the rows of the last full 1024 ids, and before that the file as it was |
| ProbeProtocol.RepeatIsCached | src/cpp/commands_frame.cpp:2118-2164 | after a sweep whose last write succeeds the file answers with its rows for its whole range |
| ProbeProtocol.EarlyWorkBreaksTheFile | src/cpp/commands_frame.cpp:1604-1607 | counters before the first move, then a probe: the file holds rows of no cold sweep |
| ProbeProtocol.ColdWhenUntouched | src/cpp/capture.cpp:17-52 | a sweep is cold for every engine exactly when its process has done nothing before it |
| ProbeProtocol.Session.CmdProbe | src/cpp/commands_frame.cpp:2103-2176 | whatever file and history it finds and whatever becomes of its writes: the range, which is the cap within the frame, the answer, the moves and the file, stored every 1024 ids and at the end; cold and truthful under the conditions above; `cached` with a sweep exactly for a file with a shorter prefix |
| ProbeProtocol.CachedMisleads | src/cpp/commands_frame.cpp:2118-2171 | a truthful file of one id and a run that asks for two: `cached`, and swept |
| ProbeProtocol.Session.WriteProbeCache | src/cpp/bundle.cpp:708-733 | prints the rows and replaces the file, leaves it, loses it, or puts a part of it in place |
| PositionBounds.PositionBounds.PositionBoundsAdd | src/cpp/commands_frame.cpp:576-639 | folding a stream in place merges the bounds of the vertices that its bytes hold |
| PositionBounds.PositionBounds.MergePositionBounds | src/cpp/commands_frame.cpp:667-712 | merging in place is the merge of the two values |
| PositionBounds.MergeLaws | src/cpp/commands_frame.cpp:667-712 | merging is commutative and associative, with the empty bounds as unit |
| PositionBounds.FoldMerges | src/cpp/commands_frame.cpp:576-712 | folding two streams one after the other is merging their folds |
| PositionBounds.BoundsAreTightest | src/cpp/commands_frame.cpp:576-639 | projected, finite and all vertices are counted, each within the next, and both boxes are the tightest around their vertices |
| PositionBounds.ClipBoxHolds | src/cpp/commands_frame.cpp:594-613 | every component of a vertex of four numbers lies within the clip box |
| PositionBounds.ClipBoxIsReached | src/cpp/commands_frame.cpp:594-613 | and each side of the box is such a component |
| PositionBounds.NdcBoxHolds | src/cpp/commands_frame.cpp:618-637 | every component over the fourth of a vertex in front of the eye lies within the NDC box |
| PositionBounds.NdcBoxIsReached | src/cpp/commands_frame.cpp:618-637 | and each side of that box is such a quotient |
| PositionBounds.CallPositionBounds | src/cpp/commands_frame.cpp:714-782 | the stage asked for or the first with data; every instance has its own window's bounds and the total is that of all windows together |
| PositionBounds.StreamTells | src/cpp/commands_frame.cpp:576-589 | a stream's vertices are those below the count that lie inside the bytes, each four floats behind one another from its own stride on |
| PositionBounds.InstanceTells | src/cpp/commands_frame.cpp:755-771 | an instance's vertices are read from its own offset in the shared bytes |
| Watch.FormatValue | src/cpp/text.cpp:378-418 | a formatted value is never empty; what it tells is WatchValues.TextTellsValue |
| WatchValues.TextTellsValue | src/cpp/text.cpp:378-418 | for any nesting, values with tidy names and components have equal texts only when members, names and the first sixteen components of every leaf are equal |
| WatchValues.ReadingsTell | src/cpp/text.cpp:378-418 | two readings of one variable have equal texts exactly when nothing that is printed changed |
| Watch.WatchNameMatches | src/cpp/commands_watch.cpp:56-63 | matches the whole path, or the last part for a name without a dot, ignoring ASCII case |
| Watch.CollectWatched | src/cpp/commands_watch.cpp:89-107 | the recursive loop appends the walk's finds |
| Watch.WatchedAreListed | src/cpp/commands_watch.cpp:66-107 | for any nesting, the walk finds exactly the leaves that answer to the name or lie at most seventeen structs below one that does, and the structs exactly that deep, once each, in print order |
| Watch.Watcher.Take | src/cpp/commands_watch.cpp:259-268 | one reading updates the last values, the rows and the counters to what the readings so far say |
| Watch.CmdWatch | src/cpp/commands_watch.cpp:193-282 | the run's rows and all its counters, of events looked at, events with a bound stage, blocks read, values and changes, are those of the events it looked at |
| WatchValues.RunReads | src/cpp/commands_watch.cpp:212-262 | a reading belongs to a run exactly when its event is in range and has state, its stage is bound and asked for, its block is one of the first 64, and its variable answers to the name |
| WatchValues.RunInOrder | src/cpp/commands_watch.cpp:212-262 | the readings come by event, stage and block |
| WatchValues.BlocksReadCount | src/cpp/commands_watch.cpp:238-242 | an event's blocks read are the number of blocks looked at |
| WatchValues.WithStateCount | src/cpp/commands_watch.cpp:227-273 | the events with state are the number of events with a looked-at stage that has reflection |
| Watch.RunLosesNothing | src/cpp/commands_watch.cpp:214-275 | at every event and for every key the last row at or before it carries the latest reading, and a key that was read has a row, with or without `--all` |
| Watch.RowsChange | src/cpp/commands_watch.cpp:260-268 | a row differs from the last row of its key |
| WatchValues.ChangeIsRow | src/cpp/commands_watch.cpp:259-268 | a reading is a row exactly when something that is printed changed since the last one of its key |
| Watch.FirstReadingIsRow | src/cpp/commands_watch.cpp:260-268 | a key's first reading is a row |
| Watch.AllPrintsAll | src/cpp/commands_watch.cpp:264-268 | with `--all` the rows are the readings |
| Tokenizer.SplitLine | src/cpp/replay_dump.cpp:1205-1241 | the character loop computes the splitter's run over the line and one more blank; a line that ends inside quotes loses its last token |
| Tokenizer.RoundTrip | src/cpp/replay_dump.cpp:1205-1241 | quoting and joining, then splitting, gives a list back exactly when its members are not empty, hold no quote and are no option; then no option changes |
| Tokenizer.WordsAreTaken | src/cpp/replay_dump.cpp:1205-1241 | a line of unquoted words takes them one by one, blanks and tabs alike |
| Tokenizer.FlagsAreTaken | src/cpp/replay_dump.cpp:1205-1241 | without `--save`, each flag goes up exactly when its word stands in the line, and the other words are the arguments in order |
| Tokenizer.SaveTakesNext | src/cpp/replay_dump.cpp:1205-1241 | `--save` takes the next word for the directory |
| StateDiff.Merge | src/cpp/commands_state.cpp:351-370 | the two-iterator walk ends and reports in key order, once each, exactly the keys whose shown values differ |
| StateDiff.ShownIs | src/cpp/commands_state.cpp:351-370 | of a key that a side has its value is shown, of any other that it is absent |
| Histogram.AggregateBuckets | src/cpp/commands_image.cpp:445-470 | as many bars as asked, each the sum of its own contiguous group; or the buckets unchanged |
| Histogram.GroupIsRange | src/cpp/commands_image.cpp:461-468 | a group is a contiguous range of buckets |
| Histogram.GroupSizes | src/cpp/commands_image.cpp:461-468 | the groups cover all buckets, none is empty, and sizes differ by one at most |
| Histogram.TotalKept | src/cpp/commands_image.cpp:461-468 | the bars add up to the buckets |
| Bindings.TestIsExact | src/cpp/commands_state.cpp:1340-1343 | the 32-bit range test is right for every register exactly when the range's end fits in 32 bits |
| Bindings.RootDeclares | src/cpp/commands_state.cpp:1319-1355 | finds a declaring parameter exactly when there is one |
| Bindings.DeclaredSpan | src/cpp/commands_state.cpp:1367-1393 | the loops compute the span of the ranges of the class that the stage sees |
| Bindings.RelevantTells | src/cpp/commands_state.cpp:1373-1386 | the ranges of the span are exactly those of the class and space in parameters that the stage sees |
| Bindings.SpanIsTightest | src/cpp/commands_state.cpp:1367-1393 | without ranges that run past the last register the span holds every declared register and both its ends are declared |
| Bindings.SpanHoldsAll | src/cpp/commands_state.cpp:1367-1393 | for any ranges the span holds every register they are meant to hold exactly when none runs past the last register, or one is unbounded or ends at it |
| Bindings.SpanMissesRegisters | src/cpp/commands_state.cpp:1367-1393 | an input: a range of the last register and one more, and a span that ends at register 0 |
| Bindings.CheckBindingList | src/cpp/commands_state.cpp:1397-1426 | unmapped exactly when no range of the class is visible; reported, with the span, exactly when one is and some register of the binding fails the 32-bit test, which Bindings.ReportsAreDeserved compares with what the ranges mean |
| Bindings.ReportsAreDeserved | src/cpp/commands_state.cpp:1319-1426 | for any root signature, class and stage: the reports on all bindings are those that the registers its ranges are meant to hold deserve, exactly when each register of a range whose end wraps is declared by something else too |
| Bindings.MeansTells | src/cpp/commands_state.cpp:1319-1355 | a register is meant to be declared exactly by such a range that holds it, or by a parameter of its own |
| Bindings.LastRegisterIsReported | src/cpp/commands_state.cpp:1340-1343 | an input: a range that ends at the last register, and that register reported undeclared |

## Left out

- The replay engine, device, sessions, DLL loading, time stamps, logs and progress: oracles or nothing.
- Opening, reading, writing and renaming files: files are byte or line sequences; a write's outcome is a parameter of the probe protocol.
- Integers are unbounded except where a wrap matters (BMP sizes, the 32-bit sums of the downscaler, register ranges): the tree's and the sweep's `int` arithmetic does not overflow in the model.
- Montage.MakeMontage: the sheet's size does not overflow; the source multiplies in `int`.
- ProbeFile.FileReadsBack: is about identities whose lines fit the reader's buffer and rows whose texts are words in bounds, which is what the writer's own rows are; ProbeFile.OwnFileReadsBack covers any identity reading its own file.
- ProbeFile.ReadProbeCache: numbers that overflow `int` on reading are not modelled; neither is text mode, which turns line ends into others.
- JsonText.StringRoundTrip: one character stands for one byte; a reader's decoding of UTF-8 is not modelled, and the model's reader refuses fractions, exponents and `\u` escapes above 007F, which the writer never prints.
- JsonDocument.DocumentReadsBack: text output (without `--json`) is not modelled.
- AlignmentKeys.StripIs: a blank is a space or one of the ASCII controls from tab to carriage return; Python counts some further characters as blanks.
- PassCosts.MaxIsGreatest: is about comparisons under which being told apart is transitive, as it is for numbers that are not NaN; for any comparison the fold is the one PassCosts.FoldPassCosts gives.
- WatchValues.ReadingsTell: a component is its printed text; two numbers that print alike are one text.
- Alignment.PassMarkers: `reconstruct_passes` and the bundle readers are not modelled; passes arrive as records.
- AbDocument.BuildDocument: the two sides' summaries, caveats, file paths of pictures, the byte counts of a stage and the notes beside a cost or picture verdict are not modelled; decoding two pictures is a function of their paths, and a pass's costs are exact sums; a list that stands where a reflection has a text is shown without quotes.
- AbPair.CountersSwap: costs are exact numbers; the source's floats round, and the two percentages then undo each other only nearly.
- AbSummary.SummariesSwap: how many pictures count as compared is not related, because a decoded pair's verdict is the decoder's, and which pairs are decoded may differ the other way round.
- AbImages.ImagesSwap: which of the differing pairs are decoded is a matter of document order, which may differ the other way round, so the verdicts of decoded pictures are not related.
- Downscale.DownscaleImage: the floating-point choice of the size is not modelled; width and height are given within bounds, which makes the clipping of a box at the image's edge unnecessary.
- PassCosts.FoldPassCosts: passes read from a file are covered by the exact condition only; sorting by first id is what `upper_bound` asks of any caller.
- PositionBounds.PositionBoundsAdd: finite floats are reals, so rounding, overflow of the division and signed zero are not modelled; the small vectors are sequences that are reassigned, not arrays.
- Sweep.SweepRules.Feed: the ids and the engine's answers so far are ghost parameters; the engine's answer at an id is a function of the id for one forward walk.
- Watch.CmdWatch: the printing of the rows and counters, and the command line, are not modelled.
- Tokenizer.SplitLine: the stripped byte-order mark and the dispatch of the split line are not modelled.
- The difference hash, PNG, SHA-256, help and schema tables, Markdown, enum names, debug-message grouping, column choice of the sheet: easy or foreign.
