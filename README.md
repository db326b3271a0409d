# LED sign timeline engine and codec

This project models the core of the `ledsign` Python package, which drives an
addressable LED sign. A program is a timeline of colour keypoints. Each
keypoint has a colour, an end frame, a duration in frames and a pixel mask.
The package keeps the keypoints in an augmented red-black tree. It compiles
the timeline into the sign's wire format: frames of 12-byte groups, each
holding the bit-plane transposed colour samples of eight pixels. It guards
that format with a CRC-32. It can also rebuild a timeline from a compiled
stream that was read back from a file or a device.

The modules follow the source's structure:

- `Transpose` (`transpose.dfy`): `_bit_permute_step`, the compiler's and the
  parser's four-step transpose chains, and little-endian word packing.
- `Crc` (`crc.dfy`): `LEDSignCRC`, a class whose `Update` loop folds bytes
  through the 256-entry table.
- `Hardware` (`hardware.dfy`): what the model takes from `LEDSignHardware`.
  This is the LED depth, which pixel slots are present, and the per-slot
  pixel masks that the compiler and the parser derive from them.
- `Timeline` (`timeline.dfy`): `LEDSignKeypoint` and `LEDSignKeypointList`.
  The tree is a value, and walks over it use a zipper in place of parent
  links. The list is a class whose methods update its root and insertion
  index. Each lookup is proved against a reference definition over the
  ordered sequence of keypoints.
- `Parser` (`parser.dfy`): `LEDSignProgramParser`, a class over the previous
  and current pixel states, the update stack and the byte offset. Its
  methods are proved against specification functions over a `Snapshot` of
  that state. Those functions cover one sample, one group, a run of groups,
  and the final flush.
- `Compiler` (`compiler.dfy`): a specification of
  `LEDSignCompiledProgram.__init__` as functions. It covers cursors,
  interpolation, frame rendering, group packing and the header word. It also
  holds the proofs that the parser decodes what the compiler packs.
- `Compilation` (`compile.dfy`): the same constructor as the loops the source
  writes. These loops fill an array of pixel states and a byte buffer, and
  each one is proved against `Compiler`.
- `Program` (`program.dfy`): `LEDSignProgram` of `ledsign/program.py`, as a
  class over the keypoint list. It covers:
  - `_add_raw_keypoint` and `_load_from_file`;
  - `load`, with the device as an oracle of chunk answers;
  - `verify` and the `compile`/`save` gate;
  - `__call__` with `skip_verify` and `_create_unloaded_from_device`;
  - the builder's `command_rgb`.
- `Arith` and `Wrappers` hold arithmetic facts and the `Option`/`Result`
  types.

Python's unbounded integers are `nat`, and 32-bit words and bytes are `bv32`
and `bv8`. The compiler's colour shades are `int`: a ramp toward a keypoint
whose end has already passed extrapolates past its colour, below 0 or above
255, exactly as the source's Python integers do. Only `struct.pack("<III")`
refuses a packed word that is negative or needs more than 32 bits, so
rendering fails with `WordOutOfRange` at the frame where that first happens. Pixel masks, which the source keeps as integer bit sets, are
`set<nat>`. The `-1` mask of `verify` is the set of the hardware's pixels,
since every stored mask is clipped to it. A keypoint's key
`(end << 44) | index` is `end * 2^44 + index`. The two agree because an
insertion index never reaches 2^44.

Where the package's documented behaviour and its code disagree, the model
carries both: the code as written and the intended behaviour.
- A checksum mismatch in `load` is meant to discard the partly received
  timeline, set the error flag and raise. As written, that branch raises an
  `AttributeError` first and keeps the partial timeline (see Findings).
- A lost device is meant to set the error flag and raise a protocol error.
  As written, it raises a `NameError` (see Findings).

The code as written is `Program.Program.MismatchAsWritten` and
`Program.DisconnectRaisesNameError`. `Program.Program.Load` models the
intended behaviour of both branches, and so do `Verify`, `Call`, `Compile`
and `Save`, which call it.

## Model

| member | source | states |
|---|---|---|
| Transpose.UsedStepsAreDisjoint | ledsign/core.py:25-27 | each of the seven (mask, distance) pairs used has a shift below 32, and its mask does not overlap its own shifted copy or lose bits to the shift |
| Transpose.StepInvolution | ledsign/core.py:25-27 | each delta swap used by the compiler or the parser, applied twice, gives back the word |
| Transpose.EncodeBit | ledsign/core.py:540-563 | the compiler's four-swap chain moves bit `b` of byte `k` to bit `4*b + k` |
| Transpose.DecodeBit | ledsign/core.py:398-409 | the parser's four-swap chain moves bit `4*b + k` back to bit `b` of byte `k` |
| Transpose.DecodeEncode | ledsign/core.py:398-409 | the parser's chain undoes the compiler's chain on every 32-bit word |
| Transpose.EncodeDecode | ledsign/core.py:540-563 | the compiler's chain undoes the parser's chain on every 32-bit word, so the two are inverse permutations |
| Transpose.SamplesRoundTrip | ledsign/core.py:528-540 | four channel bytes packed at bits `8*k`, encoded and then decoded, come back in their lanes |
| Transpose.BytesWordBytes | ledsign/core.py:397 | reading a little-endian word from its own four bytes gives the word back |
| Transpose.WordBytesWord | ledsign/core.py:565 | the four bytes of a word read little-endian from any four bytes are those bytes |
| Transpose.GroupRoundTrip | ledsign/core.py:397 | unpacking `<III` from a packed group of three words gives the three words |
| Transpose.GroupBytesOfWords | ledsign/core.py:565 | packing `<III` from the three words read out of any 12 bytes gives those bytes |
| Crc.TableIsPolynomial | ledsign/core.py:276-309 | every table entry is its index shifted into the top byte and reduced by polynomial 0x04C11DB7 over eight bit steps |
| Crc.FoldAppend | ledsign/core.py:316-318 | folding `a + b` equals folding `a` and then `b`, so updates stream |
| Crc.Checksummer.constructor | ledsign/core.py:311-314 | a new checksummer holds the checksum of its data, which is 0 for no data |
| Crc.Checksummer.Update | ledsign/core.py:316-318 | the byte loop leaves the value folded over the data from the old value |
| Hardware.PresentPixelsSpec | ledsign/core.py:489-491 | the present slots are listed once each, in increasing order, and every listed slot is present |
| Hardware.PixelMasksSpec | ledsign/core.py:383-393 | the per-slot masks are pairwise disjoint; compressed masks name present pixels only, and uncompressed slot `q` names pixel `q` only |
| Timeline.SubtreeMaskIsUnion | ledsign/core.py:788-928 | in an augmented tree a pixel is in a node's cached subtree mask exactly when some keypoint below that node has it |
| Timeline.PrunedSubtree | ledsign/core.py:822-868 | a subtree whose cached mask misses the query holds no keypoint matching it, which is what lets the lookups skip it |
| Timeline.RotateElems | ledsign/core.py:793-817 | a rotation keeps the in-order sequence of keypoints |
| Timeline.RotateAugmented | ledsign/core.py:793-817 | a rotation keeps every cached subtree mask equal to the union below it |
| Timeline.FixRotatePreserves | ledsign/core.py:902-910 | the rotating fix-up case keeps the in-order keypoints and the augmentation |
| Timeline.FixRecolorPreserves | ledsign/core.py:911-915 | the recolouring fix-up case keeps the in-order keypoints and the augmentation |
| Timeline.FindLeaf | ledsign/core.py:879-884 | the descent stops at the leaf where the new key belongs: the keys before the path are smaller and those after it are larger |
| Timeline.Rebalance | ledsign/core.py:885-922 | the fix-up loop keeps the tree's in-order keypoints and its augmentation |
| Timeline.InsertTree | ledsign/core.py:870-922 | insertion gives an augmented tree whose in-order keypoints are the old ones with the new keypoint placed in key order |
| Timeline.KeyOrder | ledsign/core.py:871 | while indices stay below 2^44, keys are equal exactly when end and index are, and order by end and then by index |
| Timeline.FreshInsert | ledsign/core.py:870-922 | a keypoint with a fresh index has a key unlike every stored key, and inserting it keeps keys strictly increasing |
| Timeline.InsertSortedContents | ledsign/core.py:870-922 | inserting adds exactly the new keypoint to the multiset of keypoints |
| Timeline.InsertSortedOrdered | ledsign/core.py:870-922 | inserting a keypoint with a new key into an increasing sequence keeps it increasing |
| Timeline.FirstFromIsLeast | ledsign/core.py:846-868 | the reference successor is none exactly when nothing matches at or after the key; otherwise it matches, is at or after the key, and has the least such key |
| Timeline.LastUpToIsGreatest | ledsign/core.py:822-844 | the reference predecessor is none exactly when nothing matches at or before the key; otherwise it matches, is at or before the key, and has the greatest such key |
| Timeline.SelectedIsFilter | ledsign/core.py:924-928 | the selection holds exactly the matching keypoints, and keeps increasing key order, so each appears once |
| Timeline.KeypointList.constructor | ledsign/core.py:789-791 | a new list is empty, valid and starts indexing at 0 |
| Timeline.KeypointList.Clear | ledsign/core.py:819-820 | clearing empties the tree and keeps it valid, leaving the insertion index as it was |
| Timeline.KeypointList.Insert | ledsign/core.py:870-922 | insertion stamps the keypoint with the current index, places it in key order, and increments the index |
| Timeline.KeypointList.LookupIncreasing | ledsign/core.py:846-868 | the mask-pruned walk returns the reference successor and changes nothing |
| Timeline.KeypointList.LookupDecreasing | ledsign/core.py:822-844 | the mask-pruned walk returns the reference predecessor and changes nothing |
| Timeline.KeypointList.Iterate | ledsign/core.py:924-928 | repeated successor lookups yield exactly the selection of matching keypoints in key order |
| Parser.Compose | ledsign/core.py:413-421 | a state built from end, duration and colour has those fields under the source's shifts and masks |
| Parser.SampleFields | ledsign/core.py:412-431 | an absorbed sample extends the ramp, and a rejected one moves `curr` to `prev`, restarts the duration, keeps the end, and is stacked exactly when the colour changed from a live previous state |
| Parser.SlotLayout | ledsign/core.py:410-411 | the lo group `j` of frame `i` starts at slot `j`, the hi group at slot `j + 4*fl`, and only the last hi group ends the frame |
| Parser.SlotCoversFrame | ledsign/core.py:410-412 | slot `Slot(pos) + k*fl` is pixel `p` exactly when group and lane are the ones that address `p`, so each pixel is sampled once per frame |
| Parser.SwapRemoveElements | ledsign/core.py:438-440 | removing a stack entry by swapping in the last one keeps every other entry |
| Parser.ExtractSpec | ledsign/core.py:433-443 | one merge pass drops exactly the entries whose state equals the head's, and ORs together all their masks |
| Parser.FlushPartition | ledsign/core.py:432-443 | flushing the stack emits one commit per distinct state, each covering exactly the stacked pixels with that state |
| Parser.FrameEndFlush | ledsign/core.py:432-443 | a group that ends a frame empties the stack into commits that partition it |
| Parser.FedAppend | ledsign/core.py:395-444 | parsing two whole-group chunks one after the other gives the state of parsing their concatenation |
| Parser.FinishedPartition | ledsign/core.py:446-462 | termination keeps the earlier commits and appends a partition of the stacked and changed pixels |
| Parser.ProgramParser.constructor | ledsign/core.py:374-393 | a new parser holds zeroed states, an empty stack, offset 0 and the slot masks |
| Parser.ProgramParser.Sample | ledsign/core.py:412-431 | one lane sample updates the state as the reference sample step does |
| Parser.ProgramParser.Collect | ledsign/core.py:433-441 | the in-place merge loop computes the reference extraction of the stack |
| Parser.ProgramParser.Flush | ledsign/core.py:432-443 | flushing empties the stack and appends the reference commits |
| Parser.ProgramParser.SampleLanes | ledsign/core.py:412-431 | the four-lane loop applies the reference lane samples |
| Parser.ProgramParser.ProcessGroup | ledsign/core.py:396-443 | one group is decoded, sampled and flushed at a frame end as the reference group step |
| Parser.ProgramParser.UpdateGroups | ledsign/core.py:396-443 | the group loop applies the reference function to every whole group, and the stack never overflows |
| Parser.ProgramParser.Update | ledsign/core.py:395-444 | `update` succeeds exactly on whole groups with frames of positive width, and then advances the offset and applies every group |
| Parser.ProgramParser.PushChanged | ledsign/core.py:447-450 | the pixels whose colour differs are stacked; it reports overflow when they do not fit |
| Parser.ProgramParser.Terminate | ledsign/core.py:446-462 | termination stacks the changed pixels and flushes them against the current states, or reports an overflowing stack |
| Compiler.RoundNearest | ledsign/core.py:519-522 | the rounding is at most half a unit off and breaks ties to even |
| Compiler.InterpolateBounds | ledsign/core.py:519-522 | interpolation starts at the previous colour, ends at the target's, and stays between them |
| Compiler.BitOrDisjoint | ledsign/core.py:501 | OR of a value below `2^k` with a multiple of `2^k` is their sum |
| Compiler.StepFirstSpec | ledsign/core.py:503-522 | a frame succeeds exactly when every slot's step does, keeps slot order, and fails with the first failing slot's error |
| Compiler.RampAhead | ledsign/core.py:519-522 | while ramping, each channel stays between the ramp's start and the target, holds the start before the ramp begins, and reaches the target in the keypoint's last frame |
| Compiler.RampOvershoots | ledsign/core.py:519-522 | a ramp toward a keypoint that has already ended is not clamped: from black toward full red, one frame past a one-frame ramp, red is 510 |
| Compiler.CursorStep | ledsign/core.py:504-518 | a cursor is a matching keypoint ending at or after frame `i`; it stays while its keypoint has not ended, and otherwise the successor lookup past its key gives the next frame's cursor |
| Compiler.CursorAdvance | ledsign/core.py:511-518 | a successful step keeps the mask and leaves the cursor at the next frame's cursor |
| Compiler.StepSucceeds | ledsign/core.py:503-522 | with positive durations and no two keypoints of the slot's pixels ending in the same frame (`EndsDistinct`), a slot on its cursor never raises, and a slot showing levels goes on showing levels |
| Compiler.RenderCursors | ledsign/core.py:502-522 | every rendered frame leaves every slot on its cursor for the next frame, and keeps no two of its keypoints ending in the same frame |
| Compiler.RenderMasks | ledsign/core.py:502-522 | every rendered frame keeps every slot's mask |
| Compiler.FrameSucceeds | ledsign/core.py:503-522 | with positive durations, slots on their cursors with distinct ends and showing levels step without raising, and go on showing levels |
| Compiler.RenderSucceeds | ledsign/core.py:502-567 | with positive durations, slots starting on their first keypoints with no two of a slot's keypoints ending in the same frame (`SlotsAt`), and slots starting on levels, rendering every frame succeeds, packs, and shows levels only |
| Compiler.FrameColour | ledsign/core.py:519-522 | a slot heading for a keypoint shows a colour between the ramp's start and the keypoint's, the start before the ramp, and the keypoint's colour in its last frame |
| Compiler.IdleSlot | ledsign/core.py:506-507 | a slot with no cursor is left unchanged by every later frame |
| Compiler.ReachedSlot | ledsign/core.py:508-518 | a slot whose keypoint has ended takes its colour as the ramp start, advances to the next keypoint by key, and shows the colour when none follows |
| Compiler.FrameLayout | ledsign/core.py:523-567 | group `g` of a frame sits at byte `12*g` and packs the four slots of its group |
| Compiler.GroupDecodes | ledsign/core.py:523-567 | decoding the packed group's channel word yields each lane's channel byte |
| Compiler.CompiledDecodes | ledsign/core.py:410-412 | the parser's slot for the group at `24*ld*i + 12*g` is the compiler's, and decoding yields that slot's colours in frame `i` |
| Compiler.CtrlFields | ledsign/core.py:498-501 | the low byte of `ctrl` is `3*ld`, `(ctrl >> 8) << 2` is the data length, and `(ctrl >> 9) // (ctrl & 0xff)` is the duration |
| Compiler.DepthCoversPixels | ledsign/core.py:487 | the compressed depth gives at least one slot per present pixel |
| Compiler.InitialSlots | ledsign/core.py:486-497 | initial slots carry their masks and start on their first matching keypoint |
| Compiler.NoPixelsNoCursor | ledsign/core.py:492-493 | a padding slot with an empty mask never has a cursor |
| Compiler.OrBelow | ledsign/core.py:529-531 | an OR of naturals is below `2^k` exactly when both operands are |
| Compiler.LaneShiftFits | ledsign/core.py:529-531 | a channel value shifted into lane `k` is below 2^32 exactly when it fits the lane |
| Compiler.WordFits | ledsign/core.py:524-539 | the OR of four channel values shifted into their lanes fits 32 bits, which `struct.pack("<III")` at ledsign/core.py:565-567 demands, exactly when every lane fits |
| Compiler.Render | ledsign/core.py:502-567 | a successful rendering has one frame per frame index, each of every slot, and every frame packs |
| Compiler.LevelsFit | ledsign/core.py:524-539 | channel levels fit every lane, and the packed word is then the four bytes side by side |
| Compiler.LevelsPack | ledsign/core.py:523-567 | a frame showing levels only packs |
| Compiler.LaneWordDecodes | ledsign/core.py:398-409 | decoding the packed word of a frame showing levels yields each lane's channel byte |
| Compilation.InitialStates | ledsign/core.py:486-497 | the built states are the reference initial slots, `8*ld` of them |
| Compilation.PresentStarts | ledsign/core.py:488-491 | the loop builds one slot per present pixel, in order |
| Compilation.Padded | ledsign/core.py:492-493 | padding appends blank slots up to the slot count |
| Compilation.SlotStarts | ledsign/core.py:495-497 | slot `q` has mask `{q}` and starts on the first keypoint touching pixel `q` |
| Compilation.CompressedStarts | ledsign/core.py:486-493 | present slots followed by padding are the reference compressed slots |
| Compilation.StepSlot | ledsign/core.py:503-522 | one slot's step equals the reference step |
| Compilation.StepFrame | ledsign/core.py:503-522 | the in-place slot loop leaves the reference frame, or reports the reference error |
| Compilation.PackLanes | ledsign/core.py:524-539 | the `k` loop ORs each lane's channel value in at bit `8*k`, for the lo and the hi group, and reports for each group exactly whether its words fit 32 bits |
| Compilation.OrInto | ledsign/core.py:529-531 | `acc \|= v << l` keeps a word valid exactly while every lane so far fits, and then holds their OR |
| Compilation.OrPixel | ledsign/core.py:528-531 | one turn of the `k` loop ORs lane `k` into the three channel words of the group |
| Compilation.LanesPacked | ledsign/core.py:524-539 | the four lanes of a group fit exactly when its channel fits, and then their OR is the packed word |
| Compilation.ColumnsPack | ledsign/core.py:523-567 | a frame packs exactly when both groups of every column fit |
| Compilation.GroupPair | ledsign/core.py:540-567 | the encoded lo and hi words are the frame's bytes at `12*j` and `12*(ld + j)` |
| Compilation.WriteGroup | ledsign/core.py:564-567 | the slice assignment overwrites exactly 12 bytes with the packed group |
| Compilation.WriteColumn | ledsign/core.py:564-567 | the two writes of one column extend the written part of the frame by groups `j` and `ld + j`, and touch no other bytes |
| Compilation.PackColumn | ledsign/core.py:524-567 | one turn of the `j` loop succeeds exactly when both groups of column `j` fit, and then writes their bytes |
| Compilation.RenderFrame | ledsign/core.py:502-567 | one turn of the frame loop gives the reference rendering's next frame in the states and in the buffer, or raises the reference error |
| Compilation.PackFrame | ledsign/core.py:523-567 | the frame loop succeeds exactly when the frame packs, and then writes the frame's bytes at its base and nothing else |
| Compilation.RenderFrames | ledsign/core.py:502-567 | the frame loop fills the buffer with the reference frames' bytes, or reports the reference error: a zero-duration ramp or a word that `struct.pack` refuses, at the first frame where either happens |
| Compilation.Compile | ledsign/core.py:484-568 | the constructor computes the reference compiled program, depth, data, ctrl and CRC, or raises the reference error |
| Program.AddedAllContents | ledsign/program.py:75-78 | adding commits grows the list by the kept ones, each with a clipped nonempty mask and a fresh index |
| Program.U32RoundTrip | ledsign/core.py:588-591 | a little-endian 32-bit write read back gives the value |
| Program.FileCheck | ledsign/program.py:80-90 | a file is accepted, with its control word, exactly when it has at least 8 bytes, whole words, the length and checksum its header announces, and a depth byte equal to three times the compressed depth; every rejection is "Invalid program" |
| Program.SavedFile | ledsign/core.py:588-591 | a saved file is the 8-byte header followed by the data |
| Program.CompiledFields | ledsign/core.py:498-501 | a compiled program's depth, data length, ctrl and CRC are as the constructor sets them |
| Program.SavedHeader | ledsign/core.py:588-591 | the header words read back as ctrl and CRC |
| Program.SavedFileLoads | ledsign/program.py:80-91 | a saved compiled program passes every loader check and loads its duration back |
| Program.ChunkSizeBounds | ledsign/program.py:136-138 | the chunk size is a multiple of 12 in [60, 65532], the clamped size rounded down to 12 |
| Program.Clamp | ledsign/program.py:305-307 | each channel is clamped to 0..255 |
| Program.CommandRgbChannels | ledsign/program.py:295-308 | `command_rgb` is at most 0xffffff and packs the clamped channels as its colour |
| Program.ClippedMatches | ledsign/program.py:166 | with clipped masks, the `-1` query matches every keypoint |
| Program.OuterStep | ledsign/program.py:166-178 | one outer step moves past a keypoint and accumulates its flaws |
| Program.OuterDone | ledsign/program.py:166-178 | when the outer walk ends, the accumulated flaws are the program's errors |
| Program.EndsFollowKeys | ledsign/program.py:172-177 | a smaller key never has a later end, so the inner walk can stop at the first non-overlapping predecessor |
| Program.InnerStep | ledsign/program.py:172-177 | one inner step reports the overlap of that predecessor and moves below it |
| Program.InnerDone | ledsign/program.py:172-177 | when the inner walk stops, no earlier predecessor overlaps |
| Program.Program.MismatchAsWritten | ledsign/program.py:141-150 | as written, a corrupt transfer keeps the keypoints parsed so far, each added with a fresh index, leaves the error flag as it was, and raises `AttributeError` |
| Program.DisconnectRaisesNameError | ledsign/program.py:128-131 | as written, a lost device raises `NameError` |
| Program.Transfer | ledsign/program.py:135-146 | the chunk loop requests at the received offset with the chunk size, checksums and parses all answers, and stops at the program size or a rejected chunk |
| Program.Receive | ledsign/program.py:141-146 | one answer is checksummed and parsed, and the offset moves by its length |
| Program.Program.constructor | ledsign/program.py:26-38 | a new program has an empty list, duration 1, no load parameters and no error |
| Program.Program.CreateUnloadedFromDevice | ledsign/program.py:181-187 | the duration is `(ctrl >> 9) // max(ctrl & 0xff, 1)`, and load parameters are recorded exactly when `ctrl >> 8` is nonzero |
| Program.Program.AddRawKeypoint | ledsign/program.py:75-78 | a keypoint whose clipped mask is nonempty is inserted with that mask; otherwise the list is unchanged |
| Program.Program.AddCommits | ledsign/program.py:75-78 | every commit goes through the raw insert and the list becomes the reference result |
| Program.Program.AddCommit | ledsign/program.py:75-78 | one commit extends the reference result by one raw insert |
| Program.Program.LoadFromFile | ledsign/program.py:80-94 | a file failing a header check raises and changes nothing; otherwise the duration is set from ctrl, and a successful parse adds the parsed keypoints |
| Program.Program.ParseAll | ledsign/program.py:92-94 | parsing with compressed masks rejects malformed data, and on success adds the commits of the parse |
| Program.Program.Finish | ledsign/program.py:151 | termination adds the finished commits, or raises a full stack |
| Program.Program.Load | ledsign/program.py:120-151 | nothing happens without load parameters; a lost device or a depth mismatch raises before any request; a malformed chunk raises `MalformedData` and a short transfer `TransferIncomplete`; a checksum mismatch clears the list and sets the flag; a sound transfer raises at most a full stack or an exhausted index, and otherwise adds the parsed keypoints |
| Program.Program.Download | ledsign/program.py:135-151 | the transfer's requests and checksum verdict; a malformed chunk raises `MalformedData` and a short transfer `TransferIncomplete`; a sound transfer raises at most a full stack or an exhausted index, and otherwise adds the parsed keypoints |
| Program.Program.Settle | ledsign/program.py:147-151 | the outcome after the loop: a malformed chunk or short transfer raises, a mismatch clears the list and sets the flag, and otherwise termination adds the commits |
| Program.Program.Verify | ledsign/program.py:160-179 | after loading, a result is true exactly when no keypoint starts before frame 0 and no two keypoints sharing a pixel overlap, and the flag is its negation; with nothing left to load it always returns and leaves the list unchanged, so a second call gives the same result |
| Program.Program.Lint | ledsign/program.py:165-178 | the outer walk sets the flag exactly when some keypoint is flawed |
| Program.Program.LintStep | ledsign/program.py:167-178 | one outer step checks a keypoint and moves to the next by key |
| Program.Program.CheckKeypoint | ledsign/program.py:167-177 | the flag gains the keypoint's flaws and the list is unchanged |
| Program.Program.ScanPredecessors | ledsign/program.py:172-177 | the inner walk sets the flag exactly when some predecessor overlaps the keypoint |
| Program.Program.Call | ledsign/program.py:59-63 | with `skip_verify` the flag is set; otherwise it is the verification result, or set when verification raises |
| Program.Program.Compile | ledsign/program.py:102-109 | compile raises unresolved errors exactly when the flag is set and not bypassed, and otherwise returns the reference compiled program |
| Program.Program.Save | ledsign/program.py:111-118 | save raises unresolved errors exactly when the flag is set and not bypassed, and otherwise returns the saved file of the compressed compilation, or its compile error, or a header overflow when ctrl needs 32 bits or more |

## Left out

- USB transport, packet framing, the upload loop and `time.sleep`: these are operating-system I/O. The device is modelled as the sequence of chunks it answers with.
- `LEDSignHardware`'s protocol queries and float geometry: the LED depth and the present slots are parameters.
- Float interpolation: the compiler's `round(prev + t*(target - prev))` is modelled with exact rationals and round-half-to-even. The model makes no claim of float bit-exactness.
- Program.CommandRgb: handles integer arguments only. Float rounding and the `TypeError` checks are left out.
- `command_hsv`, `command_at`/`command_after`, `LEDSignSelector`, the builder's namespace injection, its lock and `sys._getframe`: these are float geometry, concurrency and reflection.
- `get_keypoints` and `get_duration`: trivial wrappers over `Iterate` and the duration field.
- Timeline.InsertTree: red-black balance is not proved. No red-red edges, black height and a black root are not stated, because the recolouring case can leave the root red. Order, uniqueness of keys and the augmentation invariant are proved.
- Program.Program.Load: the keypoints left behind on the error paths (a malformed chunk, a short transfer, a full stack) are not stated. Only the successful and the checksum-mismatch outcomes fix the list.
- `TransferIncomplete` and `IndexSpaceExhausted` do not exist in the source. The first covers a device that stops answering, where Python would loop or block. The second covers an index past 2^44, where Python's keys would stop ordering by end.
- Program.Program.Verify: the overlap and negative-start messages printed at ledsign/program.py:170 and ledsign/program.py:175 are console output and are not modelled. Only the error flag they accompany is.
- Crc.Checksummer.Update: only the 256 table entries are proved to be the bitwise polynomial division (`Crc.TableIsPolynomial`). The table step over an arbitrary register is not proved equal to eight bit steps, because that XOR-linearity proof over the whole register exceeds the solver budget.
- Compiler.CtrlFields: requires `3*ld < 256`, and so does Program.SavedFileLoads. `Compiler.CompileSpec` computes `ctrl` as `(3*ld) | (len(data) << 6)` for every `ld`, so at `ld >= 86` the low byte carries into the length field there exactly as in the source. Only the recovery of the fields from such a `ctrl` is not stated. With `ld == 0` the duration is not recoverable, and the lemma states nothing about it.
- The undefined `end` at ledsign/program.py:283 and the default duration `1/60` at ledsign/program.py:276 are in `command_keypoint`, which is not part of this model.

## Findings

| source | as written | input that shows it | evidently intended | confidence | as-written member | corrected member |
|---|---|---|---|---|---|---|
| ledsign/program.py:148 | `self._program._keypoint_list.clear()`, but a program has no `_program` attribute | a transfer whose received CRC differs from the device's, with one keypoint already parsed | clear the keypoint list, set `_has_error` and raise "Mismatched program checksum" | not executed | Program.Program.MismatchAsWritten | Program.Program.Load |
| ledsign/program.py:131 | raises `LEDSignProtocolError`, which ledsign/program.py never imports | `load` with load parameters after the device has gone away | set `_has_error` and raise the protocol error "Device disconnected" | not executed | Program.DisconnectRaisesNameError | Program.Program.Load |
