# A verified model of the wire crate

`abi/` is the crate two sides of a ring agree on: fixed-width entry formats, the
state machines that consume them, and the arithmetic that lays a channel out.
This project models its hard core in Dafny and proves what the crate promises
about it, over every input, every run and every interleaving.

- **Canvas participation** (`Canvas`, `CanvasCodec`, `Frames`, `Reception`,
  `Emission`). A receiver assembles one canvas out of entries it does not trust,
  poisons the frame at its first fault, starts over at the closing opcode, and
  answers a participation only after the declaration met its own tree. The
  receiver is proved to follow a description of whole runs that never mentions
  its step function, `admit` is proved to be a set equality with kinds, and a
  frame that is emitted and offered afar is proved to be answered exactly as its
  author's own `admit` would have answered it.
- **Input events and the crossing attestation** (`Input`, `Attestation`). Six
  records behind a stamp, an order-sensitive fold kept at both ends, and what
  agreement between the two ends rules out.
- **Objects requests** (`Objects`). The third format over the shared codec.
- **Deadline inheritance** (`Deadline`). A one-hop rule, and what chains of any
  length do with it.
- **Generation swap** (`Swap`, `Visibility`). The order of a swap's steps over
  every sequence of calls, and why its one store is a release.
- **Notices** (`Control`). What a component is told about a slot, a stop and a
  grade over every run.
- **Boot** (`BootTokens`, `BootModule`), **channel layout** (`Layout`) and
  **manifest judgement** (`Manifest`). Exact parsers, 32-bit arithmetic, and
  canonical forms.

`Wire` holds what the formats share and `Bits` the bit operators.

## How it is modelled

- Bytes and machine words are subset types of `int`, so a wrap, a saturation or
  a checked operation is written where the code has one. Exclusive or and the
  masks are recursive on bits; flags are `bv8`.
- A record is the list of its byte fields with the widths it declares. One
  cursor writer and one cursor reader, as loops over an array, serve all three
  formats, and one lemma, `Wire.PayloadExact`, carries the codec proof for all
  of them. Comparing the sixty-four bytes of two entries is equality of every
  field, since the entry has no padding. A record always reads its declared
  width here, so the extra width comparison of `abi/src/objects.rs:429` cannot
  fail.
- The tree a receiver presents is two arbitrary pure functions, as the crate
  demands of its implementors, and may be a different one at every entry. A
  census is the count it answers with the whole buffer it leaves.
- Objects that update their fields are classes whose methods are proved against
  a step function. `Reception.Drive` and `Swap.Drive` run the objects through
  any sequence of calls and are proved to answer as the steps do, so the
  theorems about runs are theorems about the objects.
- `Frames` works on what an entry's bytes were read to say; `Reception.Read` is
  the one place where bytes become that.
- The two boot tokens differ only in their key, so they are one grammar with the
  key as a parameter.
- `emit` is all-or-nothing about room and flags, as its documentation says. When
  the arena runs out of offsets part way, which its documentation lists as a
  refusal, the entries before were already written, and `Emission.Emit` states
  exactly which.
- `Visibility` is an operational model of views: each thread sees at least its
  view of each location and may read anything newer, stores to one location take
  effect in one order, and a release message carries its writer's view. The
  occupant writes its table and the frame stores the word; the occupant's
  acknowledgement is what hands its view to the frame, and `Swap` proves that no
  commit is taken without one.

Where the code and its documentation part:

- A selection may be confined to the lane that names nobody. It is encoded as no
  confinement, so a frame its author's own `admit` refuses can be admitted by
  the far side (`Emission.LaneNobodyWidens`). Transparency of the wire holds for
  every declaration whose canvas, occupants and lane are nodes and whose lane is
  not the canvas, and for no other (`Emission.EmittedFrameIsTransparent`,
  `Emission.UnfitFrameIsTold`).
- The comment on the largest ring says twice that size could not be stated in 32
  bits. It could; four times that size could not (`Layout.CeilingHasRoom`). The
  code's ceiling is the one modelled.
- A promise whose deadline is the word for no deadline forgets the promise in
  force (`Control.PromiseForgotten`); a stop without a deadline is refused before
  it becomes one (`abi/src/control.rs:94`), but the cell does not. What is in
  force after any run is what the promises since the last such promise put in
  force (`Control.ZeroForgets`), so it is the earliest real deadline promised if
  and only if each real promise is matched by one no later, made since then
  (`Control.EarliestExactly`).
- `backoff_ticks` stops within thirty-two rounds for every record the manifest
  check accepts. For a record that doubles zero towards a cap above zero it runs
  once per respawn counted (`Manifest.BackoffTicks`).

## Model

| member | source | states |
|---|---|---|
| Wire.LeExact | abi/src/participate.rs:1426-1512 | at every width, the bytes of a little-endian field and its value determine each other |
| Wire.LastByteWeighsMost | abi/src/participate.rs:1426-1512 | the order of the bytes: one byte further on weighs 256 times as much |
| Wire.PayloadExact | abi/src/participate.rs:1580-1598 | a slot is a record's payload if and only if it splits into exactly that record's fields and every byte after them is zero |
| Wire.Writer.Put | abi/src/participate.rs:1457-1460 | the field lands directly after what was written, what was written stays, and everything past the cursor is still zero |
| Wire.Reader.Take | abi/src/participate.rs:1479-1516 | the field is the next bytes of the payload and the cursor moves by its width |
| Wire.Reader.Finish | abi/src/participate.rs:1520-1529 | true exactly when every byte from the cursor on is zero |
| Wire.WriteFields | abi/src/participate.rs:1580-1585 | the cursor writer produces the fields in order and zero to the stride |
| Wire.ReadFields | abi/src/participate.rs:1593-1598 | the cursor reader takes exactly the declared fields, and reports whether anything is left over |
| Canvas.TouchesSharesATick | abi/src/participate.rs:589-630 | a span touches a stretch if and only if some tick belongs to both, a start belonging and an end not, for clips and markers alike |
| Canvas.ScanAndPlace | abi/src/participate.rs:930-946 | the scan refuses a full arrangement and an occupant placed before, and otherwise appends |
| Canvas.WithPlacement | abi/src/participate.rs:930-946 | the builder keeps at most sixty-four placements of pairwise different occupants |
| Canvas.AdmitByScan | abi/src/participate.rs:1041-1103 | the three scans answer as the specification of `admit` does, every refusal of which the next four rows characterise |
| Canvas.AdmitExactly | abi/src/participate.rs:1041-1103 | `admit` answers a participation if and only if the tree holds the canvas, admits the lane, and the placed nodes are as a set the census nodes, each placed as the kind the tree's first entry for it says |
| Canvas.CanvasRefusals | abi/src/participate.rs:1043-1063 | `NotACanvas`, `Unplaceable`, `TooManyPlacements` and `NotALane` are each answered if and only if the census or the lane says so, off the tree alone |
| Canvas.PlacementRefusals | abi/src/participate.rs:1065-1078 | `NotAnOccupant` and `Mistimed` are each answered if and only if the canvas passes and the first placement the tree does not read so names a node it does not hold, or one it does |
| Canvas.FloorRefusals | abi/src/participate.rs:1080-1098 | `NothingPlaced` and `Unplaced` are answered if and only if everything before passes and their half of the floor is not met, the latter naming the earliest occupant of the census that was left out |
| Canvas.ParticipationAnswers | abi/src/participate.rs:1218-1257 | past the floor, a node has a placement, its own, if and only if the tree holds it; its lane is the one the tree reads, none for one on the canvas itself, and refused for a stranger; neither side is empty |
| Canvas.SelectedExactly | abi/src/participate.rs:1270-1295 | a selection names exactly the placed occupants that share a tick with the stretch and, if confined, sit on that lane by the tree's reading, each once, in arrival order |
| CanvasCodec.DeclareExactly | abi/src/participate.rs:1830-1884 | the fields of a declaration are believed as a value if and only if the value is well formed and writes those fields |
| CanvasCodec.PlaceExactly | abi/src/participate.rs:1893-1931 | the same for a placement |
| CanvasCodec.DecodeExactly | abi/src/participate.rs:1830-2081 | an entry and payload decode to a crossing if and only if that crossing is well formed with legal flags and encodes to exactly those bytes |
| CanvasCodec.DecodeIsRaw | abi/src/participate.rs:1830-2081 | decoding is a reference decoder over the raw bytes at their stated places, with literal opcodes, flags and lengths: the same values and the same refusals in the same order |
| CanvasCodec.DecodeByCursor | abi/src/participate.rs:2031-2065 | the decoder with its cursor answers as the specification does, in the order of its refusals |
| CanvasCodec.EncodeByCursor | abi/src/participate.rs:1984-2022 | the encoder with its cursor writes the envelope and the payload of the specification |
| Frames.RunFollowsFrames | abi/src/participate.rs:2217-2327 | after any sequence of entries and epochs, the whole state is the one described by what was offered since the last closing opcode or epoch move |
| Frames.AnswersFollowFrames | abi/src/participate.rs:2242-2319 | the answer to every entry of every run is the one its own frame earns, fault and position included |
| Frames.FramesDoNotInterfere | abi/src/participate.rs:2242-2327 | in any two runs, the same entry after the same open frame gets the same answer, whatever frames, faults and epochs came before |
| Frames.HistoryIsForgotten | abi/src/participate.rs:2217-2327 | after any run that leaves no frame open, the receiver stands and answers everything as one freshly opened at that epoch |
| Frames.EpochIsAnswered | abi/src/participate.rs:2217-2223 | over every run, a look at the epoch is answered that it moved if and only if it differs from the last one seen |
| Frames.PositionCounts | abi/src/participate.rs:2261-2262 | over every run the position never exceeds sixty-six, so it cannot saturate; unpoisoned, it is zero with no canvas open and one more than the placements otherwise; what is being built always has distinct occupants |
| Frames.ClosingStartsOver | abi/src/participate.rs:2253-2281 | after a closing entry, whatever it was answered, the receiver is a fresh opening at the same epoch |
| Frames.FirstFaultStands | abi/src/participate.rs:2254-2259 | every entry offered after a refused one in the same frame, its commit included and whatever looks at an unmoved epoch come between, is answered with that same fault |
| Frames.ParticipatingExactly | abi/src/participate.rs:2242-2319 | over every run, a participation is answered if and only if the frame is one declaration, one to sixty-four placements of distinct occupants and a commit, all believed, meeting the floor of the tree at the commit; anything else accepted is answered with nothing in it |
| Reception.ClosingIsTheCommit | abi/src/participate.rs:1691-1696 | for whatever decodes, the raw opcode closes the frame if and only if the body is the commit |
| Reception.Receiver.constructor | abi/src/participate.rs:2184-2186 | a receiver opens at its epoch with nothing in it |
| Reception.Receiver.Clear | abi/src/participate.rs:2323-2327 | clearing leaves the opening state of the same epoch |
| Reception.Receiver.Follow | abi/src/participate.rs:2217-2223 | a moved epoch discards everything, an unmoved one nothing, and the answer says which |
| Reception.Receiver.FoldIn | abi/src/participate.rs:2290-2319 | one entry's bytes change the canvas being built, and are answered, as the fold rule says |
| Reception.Receiver.Offered | abi/src/participate.rs:2242-2281 | one offered entry takes the object's state and answer exactly one step of the frame rules |
| Reception.Drive | abi/src/participate.rs:2181-2327 | the object answers any sequence of entries and restarts exactly as the run of steps that the theorems of `Frames` are about |
| Emission.WriteUntil | abi/src/participate.rs:1131-1159 | the buffer ends as the longest prefix of the frame whose offsets fit, followed by what it held before |
| Emission.EncodeNext | abi/src/participate.rs:1132-1146 | what is written next is the next entry of the frame |
| Emission.Emit | abi/src/participate.rs:1124-1161 | which refusal, in which order; on success the buffer holds the whole frame and is otherwise untouched; on a refusal for flags or room it is untouched, and on running out of offsets it holds exactly the entries before |
| Emission.EmittedEntries | abi/src/participate.rs:1132-1159 | every entry of an emitted frame field by field: its opcode by its place in the frame, the token, class and flags of the carriage, a length of forty, its offset forty bytes past the one before, and nothing else set |
| Emission.SlotsDoNotOverlap | abi/src/participate.rs:1114-1116 | no two entries of a frame share a byte of the arena |
| Emission.DecodeOfEncoded | abi/src/participate.rs:2020-2065 | for every value, well formed or not, decoding its own encoding gives a stated value or refusal in the same carriage |
| Emission.EmittedFrameIsTransparent | abi/src/participate.rs:1124-1161 | after any history that left no frame open, the receiver offered the emitted frame answers `Assembling` until the commit and then exactly the local `admit` result, the same participation or the same escape at the commit's position, and is fresh again, for every fit declaration, legal carriage and tree |
| Emission.ChannelIsTransparent | abi/src/participate.rs:1124-1161 | of any number of frames sent on one channel, each is answered in its place as local `admit` would, whatever was admitted or refused before it |
| Emission.UnfitFrameIsTold | abi/src/participate.rs:1852-1884 | for every declaration that is not fit, after any such history, some tree makes the far answer differ from the local one |
| Emission.LaneNobodyWidens | abi/src/participate.rs:1834-1884 | a concrete frame that local `admit` refuses for its lane is answered with a participation afar |
| Input.JudgeExactly | abi/src/input.rs:835-1088 | for each of the six records, fields are believed as a value if and only if it is well formed and writes those fields behind that stamp |
| Input.DecodeExactly | abi/src/input.rs:1172-1329 | an entry and payload decode to an event if and only if a peer would accept that event and it encodes to exactly those bytes |
| Input.DecodeIsRaw | abi/src/input.rs:835-1329 | decoding is a reference decoder over the raw bytes at their stated places, for all six records, with literal opcodes, flags, lengths and closed values: the same events and the same refusals in the same order |
| Input.DecodeByCursor | abi/src/input.rs:1263-1308 | the decoder with its cursor answers as the specification does, in the order of its refusals |
| Input.EncodeByCursor | abi/src/input.rs:1192-1248 | the encoder with its cursor writes the envelope and the stamped payload of the specification |
| Objects.EntryExactly | abi/src/objects.rs:738-872 | for each of the five records, fields are read as a value if and only if that value writes them |
| Objects.DecodeExactly | abi/src/objects.rs:980-1113 | an entry and payload decode to a request if and only if the request passes its own check and encodes to exactly those bytes |
| Objects.DecodeIsRaw | abi/src/objects.rs:738-1113 | decoding is a reference decoder over the raw bytes at their stated places, for all five records, with the buffer rule written out: the same requests and the same refusals in the same order |
| Objects.DecodeByCursor | abi/src/objects.rs:1040-1078 | the decoder with its cursor answers as the specification does, in the order of its refusals |
| Objects.EncodeByCursor | abi/src/objects.rs:992-1025 | the encoder with its cursor writes the envelope and the payload of the specification |
| Objects.BufferExactlyWhereBytesMove | abi/src/objects.rs:1086-1113 | a believed request names a registered buffer if and only if its opcode moves bytes, and carries no other flag |
| Attestation.Folder.constructor | abi/src/input.rs:1480-1482 | a fold begins at the basis with nothing absorbed |
| Attestation.Folder.Absorb | abi/src/input.rs:1489-1495 | one event folds its opcode and then its twenty-four payload bytes, in order, and counts one, saturating |
| Attestation.FoldIsOverTheStream | abi/src/input.rs:1489-1495 | after any events the word is one fold over their concatenated twenty-five bytes each, and the count is how many there were |
| Attestation.FoldIsPublished | abi/src/input.rs:1466-1475 | nothing folds to the published basis and the one byte of "a" to the value published for it |
| Bits.XorIsBitwise | abi/src/input.rs:1656-1658 | the exclusive or the fold is built on is bit by bit, at any width |
| Attestation.StreamIsFaithful | abi/src/input.rs:1484-1495 | two legal sequences have one byte stream if and only if they have the same length and the same stamp and body at every place, so order, loss and content all show in it |
| Attestation.StepIsInjective | abi/src/input.rs:1656-1658 | a step loses nothing: it is injective in the word for a fixed byte and in the byte for a fixed word |
| Attestation.OneByteMovesTheWord | abi/src/input.rs:1656-1658 | streams of any length that differ in exactly one byte never fold to the same word |
| Attestation.TwoBytesMoveTheWord | abi/src/input.rs:1656-1658 | streams of any length that differ only within two neighbouring bytes never fold to the same word |
| Attestation.AttestationExactly | abi/src/input.rs:1606-1640 | an entry is read as an attestation if and only if its fields are those of one, written out, in some class; what a fold writes is read back; and it is never read as an event |
| Attestation.CarriageIsNotFolded | abi/src/input.rs:1192-1236 | token, class, offset and flags do not enter the fold |
| Attestation.CrossingAgrees | abi/src/input.rs:1519-1652 | for every nonempty sequence of events, crossing in any legal carriage with the producer's attestation after them, the consumer refuses nothing and agrees in word and count |
| Attestation.DisagreementIsCaught | abi/src/input.rs:1515-1521 | a difference within two neighbouring bytes is refused by word and count alike, a different number of events by count unless both counts have saturated, and a fold of nothing agrees with nobody |
| Attestation.AlterationIsCaught | abi/src/input.rs:1489-1652 | changing one or two neighbouring bytes among those one entry is folded as, in transit and under any envelope at all, is never agreed to, whether the consumer refuses the entry, believes another event or takes it for an attestation |
| Deadline.PackUnpacks | abi/src/deadline.rs:106-131 | class and depth come back out of the field they were packed into, the class in the low byte |
| Deadline.RefusedExactly | abi/src/deadline.rs:322-334 | a hop is refused as a bad class if and only if the field names none of four or is deeper than four, and as not held if and only if it names one more urgent than its author holds |
| Deadline.HopIsHonest | abi/src/deadline.rs:255-376 | one hop never makes a request more urgent nor more urgent than the callee's ceiling; nothing fell short if and only if class and deadline are unchanged; each shortfall is reported exactly for its cause; late and depth never together |
| Deadline.HopExactly | abi/src/deadline.rs:336-376 | class, depth, deadline and lateness after one hop, with the soonest a callee can finish written out as its arrival and floor together, held at the top of the clock |
| Deadline.ForwardingAccepted | abi/src/deadline.rs:63-76 | a forwarder is refused downstream if and only if the channel reports a ceiling less urgent than the class it carries, and never under its own one ceiling |
| Deadline.ChainInClosedForm | abi/src/deadline.rs:322-376 | along every chain from every entry its author may write, at any depth, no hop is refused; until four rings are crossed class is the least urgent met, depth the rings, a carried deadline the latest of itself and every earliest promise; from the next on no deadline, batch or less urgent, depth four |
| Deadline.NoChainPromotes | abi/src/deadline.rs:255-270 | from any such entry, at no point further along any chain does the rank become more urgent, and an absent deadline stays absent |
| Swap.PlanSwap | abi/src/swap.rs:306-311 | a swap begins, planned and with nothing counted, if and only if both sides are in-place with one schema and one record width; any other pair is answered as incompatible |
| Swap.Swapping.DrainedNow | abi/src/swap.rs:347-356 | one step of the swap, refusals by name and nothing changed on one |
| Swap.Swapping.AssertedNow | abi/src/swap.rs:369-378 | one step of the swap, refusals by name and nothing changed on one |
| Swap.Swapping.WroteNow | abi/src/swap.rs:390-400 | one step of the swap, with the count kept, and a window too small on either side refused |
| Swap.Swapping.AcknowledgedNow | abi/src/swap.rs:415-421 | one step of the swap, refusals by name and nothing changed on one |
| Swap.Swapping.CommitNow | abi/src/swap.rs:435-442 | the word is stored exactly when the swap was acknowledged, and otherwise neither object changes |
| Swap.Drive | abi/src/swap.rs:306-442 | the objects put through any sequence of calls end and answer as the steps do |
| Swap.CallsAreAllOrNothing | abi/src/swap.rs:347-442 | at every call of every run: refused and nothing moved, or taken and the phase one further; the word moves only by a pause or a commit that was taken |
| Swap.PhasesNeverGoBack | abi/src/swap.rs:347-442 | phases never go back over any run |
| Swap.CommittedMeansAllFive | abi/src/swap.rs:306-442 | a committed swap took its drain, assertion, write, acknowledgement and commit, in that order, whatever was refused between; it counts what it wrote, which fits the window the incoming side bought |
| Swap.CommittedExactly | abi/src/swap.rs:306-442 | over every sequence of calls, a swap ends committed if and only if a true drain, a true assertion, a write within both bounds, a true acknowledgement and a commit occur in it in that order |
| Swap.StoresOnce | abi/src/swap.rs:435-442 | no run of a swap stores the word twice |
| Swap.WordIsLastStored | abi/src/swap.rs:177-194 | over every run the routing word is what the last pause or taken commit stored, the pause or that commit's generation, and otherwise what it was |
| Swap.RefusedExactly | abi/src/swap.rs:347-442 | for every call of every run, which refusal it is given, if and only if it was asked in its turn and answered no, or out of turn |
| Visibility.CommitPublishes | abi/src/swap.rs:122-136 | over every run, a client that loaded the message of a commit made after an acknowledgement reads of every slot the last write before that acknowledgement or a later one |
| Visibility.NewGenerationSeesTheTable | abi/src/swap.rs:155-163 | the same by value: a client that has read the new generation sees every table write made before the acknowledgement its commit followed |
| Visibility.OrderingExactly | abi/src/swap.rs:187-194 | after reading the commit, what a client can read of the table is, under a release store, exactly what is not older than what the frame had seen, and under a relaxed one exactly what it could read before |
| Visibility.EitherHalfMissingTears | ring/tests/litmus.rs:724-741 | a run in which the new generation is read and the table is still read empty, with a relaxed store, and another with a release store and no acknowledgement |
| Control.WireExactly | abi/src/control.rs:405-422 | a stored state reads back as itself, under the numbers zero to four, and no other byte reads at all |
| Control.PendingIsAQueue | abi/src/control.rs:443-517 | the five states are queues: peer death is appended once and never behind a revoke, a revoke cancels an undelivered grant and otherwise supersedes, a drain takes the front, and at most two are owed |
| Control.DrainsInExactlyOwed | abi/src/control.rs:497-517 | a slot is quiet after a number of drains if and only if that number is at least what it owes |
| Control.SlotWords | abi/src/control.rs:424-517 | over every disciplined run, what is said of an occupant is nothing or granted, peer-gone any number of times, and at most one final revoked; occupants' words never interleave; a past occupant's word is empty or ended |
| Control.FinishedWordStands | abi/src/control.rs:424-434 | nothing more is ever said of an occupant that has gone and is owed nothing |
| Control.UndeliveredGrantIsSilent | abi/src/control.rs:450-470 | a grant revoked before delivery posts nothing, then or ever after |
| Control.PromiseCell.constructor | abi/src/control.rs:546 | nothing is promised at first |
| Control.PromiseCell.MakePromise | abi/src/control.rs:554-561 | the cell keeps the earlier deadline and says whether it moved |
| Control.PromiseCell.Publish | abi/src/control.rs:573-579 | what is owed is told once and the promise stays |
| Control.PromisesOnlyTighten | abi/src/control.rs:544-579 | over every interleaving, the deadline in force is the earliest promised, what is told strictly decreases, and what is in force is owed or was the last thing told |
| Control.ZeroForgets | abi/src/control.rs:554-561 | over any run at all, the deadline in force is the one the promises since the last promise of no deadline put in force, all of them real |
| Control.PromiseForgotten | abi/src/control.rs:554-561 | for every real deadline, promised and then followed by a promise of no deadline, nothing is in force |
| Control.EarliestExactly | abi/src/control.rs:544-561 | over any run at all, the earliest real deadline promised is in force if and only if each real promise is matched by one no later since the last promise of no deadline |
| Control.PromiseAnswers | abi/src/control.rs:554-561 | after any run, a promise is answered that it moved if and only if none since the last promise of no deadline is as early |
| Control.GradeCell.constructor | abi/src/control.rs:611 | no grade and nothing owed at first |
| Control.GradeCell.Set | abi/src/control.rs:619-627 | the value is the grade now, owed unless it already was told |
| Control.GradeCell.Publish | abi/src/control.rs:636-642 | what is owed is told once and the value stays |
| Control.LatestGradeWins | abi/src/control.rs:611-642 | over every interleaving, the grade in force is the latest set, a drain tells exactly it, and when nothing is owed the last news is the truth |
| Control.SettingAnswers | abi/src/control.rs:619-627 | after any run, a grade set is answered changed if and only if it differs from the latest set, and owes a notice if and only if one was owed or it changed |
| BootTokens.NibbleOf | abi/src/boot.rs:434-440 | a character is a nibble if and only if it is that nibble's lower-case digit |
| BootTokens.Characters | abi/src/boot.rs:431-440 | the two keys, the sixteen digits and the five separators, as characters |
| BootTokens.Render | abi/src/boot.rs:83-91 | the loop writes the key and then two lower-case digits for each byte of the digest |
| BootTokens.ReadDigest | abi/src/boot.rs:172-186 | digits read as a digest if and only if they are how that digest is written; otherwise no digest is written so |
| BootTokens.Parse | abi/src/boot.rs:134-139 | `Ok` exactly for the rendered token of that digest, byte for byte; the two refusals tell a missing key from a bad digest |
| BootTokens.ParseIsDetermined | abi/src/boot.rs:83-139 | a word parses to one answer only, so no two digests share a token |
| BootTokens.TokensNeverCross | abi/src/boot.rs:233-274 | a rendered token of either kind does not begin with the other's key |
| BootTokens.FindWordIsFirst | abi/src/boot.rs:160-162 | for any way of telling separators, the word found is a maximal run between them that begins with the key, and none before it does; none is found only when there is none |
| BootTokens.Find | abi/src/boot.rs:118-120 | for every line: absent if and only if no word begins with the key; otherwise the first such word is judged, and no other |
| BootModule.ReadModule | abi/src/boot.rs:355-385 | the reader's running offset answers as the specification does, refusal for refusal |
| BootModule.Tree | abi/src/boot.rs:398-401 | the tree handed back is the tree the module was packed from |
| BootModule.ScanToFile | abi/src/boot.rs:409-420 | the scan for a file answers as the specification of the offsets does |
| BootModule.File | abi/src/boot.rs:409-420 | file number i is the i-th file the module was packed from, and nothing past the count |
| BootModule.ModulesExactly | abi/src/boot.rs:319-385 | the byte strings read are exactly those that are magic, tree length, count, lengths, tree and at most sixty-four files, end to end with nothing after |
| BootModule.ModuleRefusals | abi/src/boot.rs:355-385 | too many files is answered if and only if the eight bytes of the magic lie in front and the count is past sixty-four; every other refusal is a malformed header |
| BootModule.PiecesAreDetermined | abi/src/boot.rs:319-331 | one byte string is packed from one tree and one list of files only |
| Layout.LineMask | abi/src/layout.rs:102-107 | masking a word is rounding it down to a line |
| Layout.NewExactly | abi/src/layout.rs:131-156 | `new` answers if and only if the size is a power of two up to the ceiling and the arena's end fits 32 bits, with the offsets of the unbounded arithmetic |
| Layout.RegionsAreDisjoint | abi/src/layout.rs:40-156 | the header, the four cursor lines, the index ring, the two entry arrays and the arena tile the mapping from its first byte to its last: in order, pairwise disjoint, each beginning on a line, with less than a line lost between neighbours, ending inside 32 bits |
| Layout.AdoptExactly | abi/src/layout.rs:171-194 | `adopt` answers a layout if and only if the header has the magic, a version range, nothing reserved set and this layout's size and offsets, and the layout is what `new` builds for the whole of the mapping |
| Layout.AdoptInvertsDescribe | abi/src/layout.rs:201-214 | what one side describes the other adopts, with the epoch, features and versions it was given |
| Layout.SlotIsRemainder | abi/src/layout.rs:226-228 | the slot of a free-running cursor is its unwrapped count modulo the ring |
| Layout.CursorsDoNotCollide | abi/src/layout.rs:226-228 | of any ring's length of consecutive cursors, across the 32-bit wrap or not, each selects a slot in bounds, and two select the same slot only if they are the same cursor |
| Manifest.CheckBindings | abi/src/manifest.rs:1719-1749 | the loop answers the first refusal in array order |
| Manifest.AcceptedBindings | abi/src/manifest.rs:1719-1749 | accepted if and only if the declared parts are real, their numbers strictly ascend, vendor above device, and every slot past the count is empty |
| Manifest.RefusedBindings | abi/src/manifest.rs:1719-1749 | a refusal is of the first wrong slot, if and only if that slot is wrong in the way it names |
| Manifest.BindingsHaveOneSpelling | abi/src/manifest.rs:1715-1749 | two accepted tables declaring the same set of parts are identical arrays |
| Manifest.NamesHaveOneSpelling | abi/src/manifest.rs:2100-2113 | accepted with a given label if and only if the label is a word of the alphabet that fits and the bytes are it padded with zeros |
| Manifest.CheckFaces | abi/src/manifest.rs:1400-1421 | the loop answers the first refusal in table order |
| Manifest.FacesExactly | abi/src/manifest.rs:1400-1421 | accepted if and only if every face has a name, an address and a name after the one before, by the first byte that differs; a refusal is of the first wrong face, if and only if wrong in the way it names |
| Manifest.FacesHaveOneSpelling | abi/src/manifest.rs:1400-1421 | two accepted tables declaring the same set of faces are one table, and no name occurs twice |
| Manifest.CheckState | abi/src/manifest.rs:1800-1849 | the loop, with its inner search for the parent, answers the first refusal in array order |
| Manifest.StateExactly | abi/src/manifest.rs:1800-1872 | accepted if and only if every node below the count has nothing reserved, a kind, a spelled name, an id above the one before and a parent declared before it, the first being the root, and the rest are zero; a refusal is of the first wrong node, if and only if wrong in the way it names |
| Manifest.StateIsOneTree | abi/src/manifest.rs:1800-1849 | accepted nodes have ascending, unique, nonzero ids; the first and no other is parentless; every other names a parent before it; slots past the count are zero |
| Manifest.ParentsLeadToTheRoot | abi/src/manifest.rs:1791-1849 | from every accepted node, parents lead to node zero with a smaller id at each step |
| Manifest.BackoffTicks | abi/src/manifest.rs:1602-1613 | the saturating loop gives the capped doubling over unbounded numbers for every record and count, in at most thirty-two rounds for an accepted record, and exactly when it takes longer |
| Manifest.BackoffNeverShrinks | abi/src/manifest.rs:1602-1643 | for an accepted record the pause is the lesser of first times two to the n and the cap, never shrinks, and is the cap from the thirty-second on |
| Manifest.RestartExactly | abi/src/manifest.rs:1615-1643 | a restart record is accepted if and only if it says nothing under the policy that never restarts, and otherwise four quantities in order; and which refusal it is given |

## Left out

- Whether a census is truthful: the crate states that it cannot be checked where it is used.
- Agreement on altered streams in general: a change within two neighbouring bytes is proved to be caught; a 64-bit fold has collisions, so nothing is claimed for arbitrary edits or for reordering.
- Attestation.AlterationIsCaught: where the altered entry is no longer believed, asks for at most as many events as the 64-bit count can hold, because beyond that the count has saturated and only the word is left to differ.
- Attestation.DisagreementIsCaught: its clause about different lengths leaves out two sequences that both saturate the count, for the same reason.
- Control.SlotWords: holds for runs that keep the frame's discipline (fill only an empty, quiet slot; revoke or widow only an occupied one), which is the documented duty of the placement path and not part of this crate.
- Update in place of the placement slots: an arrangement is a value that `with_placement` returns, so its sixty-four slots and count are a sequence of at most sixty-four.
- Restart policies: only whether the policy is never enters the restart check, so the policy is that one bit; the table of causes is a plain lookup.
- How a face table is located in a module's bytes: the judgement of a located table is modelled.
- Load buffering and other weak-memory effects outside a view model: not representable in `Visibility`, which orders stores to one location as they are made.
- Version and feature negotiation, error packing, labels, debug output and specimen corpora: short or without semantic content.
- `abi/src/shape.rs`, `abi/src/buf.rs`, `abi/src/cap.rs`, `abi/src/door.rs`: further fixed-width codecs and per-field refusals that would repeat the codec proof.
- `Need::check`, `Ring::check`, reservation and transfer field checks of the manifest: independent field-by-field refusals.
- The syscall stub and the unsafe casts: foreign instructions and memory-layout facts.
