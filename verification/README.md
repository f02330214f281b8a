# TopoRetarget audit and Stage-12 tooling: a verified model

This project models the self-contained logic of the contact audits and of the Stage-12 tooling, and proves
what that logic keeps, conserves and agrees on. Verify it with `dafny verify dfyconfig.toml`.

**Contact series.** Several scripts cut boolean contact series into runs with loops of their own. `MaximalRuns` gives
the one declarative meaning (the separated list of all maximal runs) and proves it characterises the list;
`RunEncoders` proves each script's loop against it. On top of that come the persistence filter (`Persistence`), the
loss windows, event counts and recalls of the V3 audit (`ContactTrace`, `ContactWindows`), its persistent windows and
what they add up to (`PersistentWindows`), the two free-flight detectors (`FreeFlight`), the V4 audit's body groups,
substitution classes and flight events (`HandGroups`, `StrictAudit`), the proximity thresholds (`Proximity`) and the
mesh preview (`MeshPreview`). Frame, episode and replica counts are arbitrary; the fixed shapes 321, 20 and 5 are only
loader checks.

**Chrome DevTools client.** `Frames` is the wire format of RFC 6455, sections 5.2 and 5.3; `WebSocket` is the
byte-accumulating reader, the sender and the frame loop over a socket that splits its bytes at will; `Cdp` is the
request, reply and event machine. Payloads are bytes; a message is whatever a decoding parameter makes of them.

**Protocols with crashes and interleavings.** `Archive` is the archival of compiled worktrees as a step machine
in which every run can be cut after any step; `ArchiveHistory` is about any history of such runs, over several
worktrees that share one archive parent and are told apart by the label in a destination's name; `ArchiveProgress`
says what an uncut run and a rerun achieve, `ArchiveRun` holds the same operation written as it changes the disk
and the two shipped specifications, and `ArchiveCloseout` the independent re-verification. `Barrier` is the ready/GO
barrier of the scheduler benchmark in every interleaving of the parent and n workers, with crashes and timeouts;
`BarrierProgress` shows that a normal return is reachable and that no run gets stuck. `Checkpoints` is the frame
chain, the shadow cut and the scan that resumes it; `Lineage` is the choice of a checkpoint directory by three
scripts.

**Rotations.** `Matrices` and `Rotations` treat quaternions, rotation matrices, finite differences and the two
rotation-error metrics over the reals. Square root, arccos, sin and arctan2 are parameters; where a statement
needs one of their laws, the law is a premise (`Rotations.AngleLaws`).

## Findings

Where a property one would expect of the code is false, the project keeps the code, proves exactly when the
property holds, and gives the concrete input named below on which it fails.

- The V3 audit filters persistence before masking the reset frame, the V4 audit after. The masks differ iff
  the threshold is at least two and the run at frame 0 has exactly the threshold's length
  (`Persistence.FilterOrdersAgree`; input: `Persistence.FilterOrdersDisagreeExample`).
- The two free-flight detectors differ on losses that start at frame 1: the audit drops them, the classifier
  reports them. With only the reset frame invalid, the two lists are equal iff no episode has expected force on
  the reset frame followed by a loss from frame 1 that re-contacts at frame 4 or later
  (`FreeFlight.DetectorsEqualIff`; input: `FreeFlight.DetectorsDifferAtFrameOne`).
- A checkpoint whose progress file is an empty dictionary can be resumed but is never reported at closeout, and a
  malformed progress file stops resuming but not closeout. The two name the same checkpoint iff no resumable
  checkpoint's progress is malformed, some checkpoint can be closed, and every resumable one without progress has
  a smaller key than some closable one (`Lineage.LineagesAgreeIff`; input: `Lineage.LineagesCanDisagree`).
- The benchmark breaks ties by listing order. It resumes what the validation would, under every listing order, iff
  it can read every progress file and exactly one checkpoint is furthest (`Lineage.BenchmarkAgreesIff`; input:
  `Lineage.TiesFollowTheListing`); under one listing order, iff it can read them and the first furthest one listed
  exceeds the other furthest ones in modification time and name (`Lineage.BenchmarkAgreesHereIff`).
- A shadow cut outside the original writes a `next_frame` that is not its frame count, and one cut past the end is
  resumed earlier than asked; both are right iff the cut is within the original
  (`Checkpoints.FreshShadowIsValid`, `Checkpoints.ShadowResumesAtCutIff`; input: `Checkpoints.ShadowPastTheEnd`).
- The archive re-verification does not look at what is left in the worktree: after any history it accepts iff
  there is a single match whose manifest has been written, also when the run raised or was cut right after writing
  it (`ArchiveCloseout.AcceptedIffManifestWritten`, `ArchiveCloseout.AcceptsWhateverTheVerdict`; input:
  `ArchiveCloseout.RaisedRunIsAccepted`). What it accepts is nevertheless complete
  (`ArchiveCloseout.AcceptedMeansArchived`).
- The README written into an archive says that only build-cache files remain in the worktree, and is written before
  that is checked. When a run gets as far as its verdict the sentence is true iff the run returns
  (`ArchiveProgress.ReadmeHoldsIff`; input: `ArchiveCloseout.RaisedRunIsAccepted`).
- An aborted run's empty directory is a second match for ever: it does not stop a later run, but the
  re-verification then rejects its archive (`ArchiveCloseout.AnotherMatchBlocks`,
  `ArchiveCloseout.AbortedDestinationBlocksCloseout`; input: `ArchiveCloseout.AbortedRunExample`). A run that gets as
  far as its verdict has its archive accepted iff no other matching destination exists before it
  (`ArchiveCloseout.AcceptedIffAloneBefore`).
- A pong is a well-formed frame iff the ping had at most 125 bytes, the limit of RFC 6455 section 5.5
  (`WebSocket.PongIsFrameIffShort`; input: `WebSocket.PongOf126IsNoFrame`); a ping of 256 bytes or more raises
  (`WebSocket.ReceiveOversizedPing`).
- RFC 6455 (sections 5.1 and 5.3) wants a client to mask every frame. On the way to a text frame `_receive` sends the masked
  echoes of the pings it met, whatever their keys, iff it met none (`WebSocket.SendsMaskedIffNoPing`; input:
  `WebSocket.EmptyPingIsAnsweredUnmasked`): no pong is a masked echo (`WebSocket.PongIsNeverMasked`). The mask bit is
  nevertheless set iff the ping had 128 bytes or more (`WebSocket.PongHasMaskBitIffLong`).
- A mesh preview keeps the smaller of the cap and the number of faces iff the cap is positive or nothing has to be
  dropped (`MeshPreview.CountIsLeastIff`): with a zero cap and any face it raises (`MeshPreview.RaisesIff`), and a
  negative cap drops that many faces from the end (`MeshPreview.NegativeCapDrops`; inputs:
  `MeshPreview.OneFaceCaps`).
- The coverage of an episode's persistent windows, weighted by their lengths, is not always its persistent recall: a
  window may hold the reset frame, which the recall leaves out. With only the reset frame invalid, the two are equal
  iff frames 0 to 2 are not all expected or no persistent expected frame has contact
  (`PersistentWindows.CoverageIsRecallIff`; input: `PersistentWindows.CoverageIsNotRecall`).

## Model

| member | source | states |
|---|---|---|
| MaximalRuns.RunsCharacterised | scripts/evaluation/audit_stage16d_per_finger_contact.py:69-84 | a list is the result of the scan iff it is sorted, disjoint, non-adjacent and holds exactly the maximal runs of the mask |
| MaximalRuns.PaintInvertsRuns | scripts/evaluation/audit_stage16d_per_finger_contact.py:87-92 | painting the runs rebuilds the mask |
| MaximalRuns.RunsInvertPaint | scripts/evaluation/audit_stage16d_per_finger_contact.py:87-92 | the runs of a painted separated list are that list again |
| MaximalRuns.RunsInjective | scripts/evaluation/audit_stage16d_per_finger_contact.py:69-84 | masks of one length with equal runs are equal |
| MaximalRuns.RunsNest | scripts/evaluation/audit_stage16d_strict_per_finger_v4.py:69-82 | if one mask is a subset of another, each run of the first lies in exactly one run of the second |
| MaximalRuns.TotalLengthIsCount | scripts/evaluation/audit_stage16d_per_finger_contact.py:69-84 | run lengths add up to the number of true frames, from any frame on |
| MaximalRuns.LongestIsMaximalInterval | scripts/evaluation/audit_stage16d_strict_per_finger_v4.py:112-113 | the longest run bounds every all-true interval and some interval attains it (0 without runs) |
| RunEncoders.FindRuns | scripts/evaluation/audit_stage16d_strict_per_finger_v4.py:69-82 | the nested while loops yield exactly the maximal runs |
| RunEncoders.TrueRuns | scripts/stage12_source_contract_qualification.py:612-625 | the scan over true indices yields the same runs with inclusive ends |
| RunEncoders.FlatNonzeroIndices | scripts/stage12_source_contract_qualification.py:613-614 | the indices are exactly the true frames in increasing order |
| RunEncoders.LongestSegmentIsLongestRun | scripts/evaluation/audit_stage16d_phase1.py:201-203 | splitting the contact indices at gaps gives the same longest duration as the run scan |
| Persistence.PersistentMask | scripts/evaluation/audit_stage16d_per_finger_contact.py:87-92 | the array filled slice by slice is true exactly on the runs of the given length or more |
| Persistence.PersistentIsOpening | scripts/evaluation/audit_stage16d_strict_per_finger_v4.py:85-90 | a frame survives iff it lies in some window of that many consecutive true frames |
| Persistence.RunsOfPersistent | scripts/evaluation/audit_stage16d_strict_per_finger_v4.py:85-90 | the runs of the filtered mask are exactly the input runs that are long enough |
| Persistence.PersistentSubset | scripts/evaluation/audit_stage16d_per_finger_contact.py:87-92 | filtering only removes frames |
| Persistence.PersistentMonotone | scripts/evaluation/audit_stage16d_per_finger_contact.py:87-92 | filtering is monotone in the mask |
| Persistence.PersistentTwice | scripts/evaluation/audit_stage16d_per_finger_contact.py:87-92 | filtering twice is filtering by the larger threshold, so the filter is idempotent |
| Persistence.FilterOrdersAgree | scripts/evaluation/audit_stage16d_strict_per_finger_v4.py:302-321 | V3's filter-then-mask (line 245 of the V3 audit) and V4's mask-then-filter agree on every frame iff the run at frame 0 does not last exactly the threshold, or the threshold is below two |
| Persistence.FilterOrdersDisagreeExample | scripts/evaluation/audit_stage16d_per_finger_contact.py:245 | a concrete mask on which the two orders differ at the shipped threshold |
| ContactTrace.UsableIsOnlyReset | scripts/evaluation/audit_stage16d_per_finger_contact.py:175-177 | the validity the loader accepts is the one under which the filter orders are compared |
| ContactWindows.EventCountsAreRuns | scripts/evaluation/audit_stage16d_per_finger_contact.py:99-105 | loss events count the maximal missing runs; re-contacts are one fewer iff the last frame is missing |
| ContactWindows.CountRecontacts | scripts/evaluation/audit_stage16d_strict_per_finger_v4.py:395-397 | V4's index loop counts the same re-contacts as V3's shifted mask |
| ContactWindows.FloatingWindows | scripts/evaluation/audit_stage16d_per_finger_contact.py:286-322 | the nested loops return the list, by episode and finger, whose contents and order the next two rows state |
| ContactWindows.WindowListed | scripts/evaluation/audit_stage16d_per_finger_contact.py:286-322 | a window is listed iff its frames are a maximal stretch of valid, expected (under 0.03) frames of its own episode and finger without contact, and its length, its counts of frames at most 0.02 and above, and its two flags are those of that stretch |
| ContactWindows.WindowsOrdered | scripts/evaluation/audit_stage16d_per_finger_contact.py:293-296 | the list is strictly increasing by episode, then finger, then frame |
| Masks.CountIsCardinality | scripts/evaluation/audit_stage16d_per_finger_contact.py:298-299 | a count of frames is the number of frames in the set |
| ContactWindows.AppendWindows | scripts/evaluation/audit_stage16d_per_finger_contact.py:296-321 | the innermost loop appends exactly the windows of one episode and finger |
| ContactWindows.WindowsConserveMissing | scripts/evaluation/audit_stage16d_per_finger_contact.py:293-321 | window lengths sum to the expected, valid, missing frames, strong and ambiguous counts likewise, and there is one window per loss event |
| ContactWindows.WindowSplitsItsLength | scripts/evaluation/audit_stage16d_per_finger_contact.py:298-299 | strong plus ambiguous frames of a window equal its length |
| ContactWindows.RecallIsOneMinusMissing | scripts/evaluation/audit_stage16d_per_finger_contact.py:276-278 | recall is one minus the missed share, and absent iff nothing is expected |
| ContactWindows.RecallsFromWindows | scripts/evaluation/audit_stage16d_per_finger_contact.py:240-258 | the expected, strong and ambiguous recalls of a row follow from the totals of its windows |
| PersistentWindows.FindWindows | scripts/evaluation/audit_stage16d_per_finger_contact.py:325-358 | the nested loops list, by episode, finger and frame, one window for each maximal run of the persistent expected mask |
| PersistentWindows.ListedIsDescribed | scripts/evaluation/audit_stage16d_per_finger_contact.py:332-356 | every listed window is a maximal stretch of three or more expected frames, its coverage is its share of frames with valid contact, its gap the longest stretch without, and its first, last and returning contacts are those frames of the trace |
| PersistentWindows.StretchIsListed | scripts/evaluation/audit_stage16d_per_finger_contact.py:330-332 | every such stretch is listed for every episode |
| PersistentWindows.LastingOrdered | scripts/evaluation/audit_stage16d_per_finger_contact.py:330-332 | the list is strictly increasing by episode, then finger, then frame |
| PersistentWindows.EpisodeWindows | scripts/evaluation/audit_stage16d_per_finger_contact.py:331-357 | the loop over the fingers of one episode filters, scans and appends the windows of each in turn |
| PersistentWindows.RunWindows | scripts/evaluation/audit_stage16d_per_finger_contact.py:332-357 | the innermost loop builds one window per run, over its slice of the valid contact |
| PersistentWindows.WindowContacts | scripts/evaluation/audit_stage16d_per_finger_contact.py:335-356 | the first and last contact frames are those of the trace within the window, and the re-contact frames are exactly those with contact after a frame of the window without |
| PersistentWindows.RecontactsAreGaps | scripts/evaluation/audit_stage16d_per_finger_contact.py:334-349 | there are as many re-contacts as maximal gaps, one fewer iff the window ends in a gap, and the longest gap bounds every gap |
| PersistentWindows.WindowsConserveContact | scripts/evaluation/audit_stage16d_per_finger_contact.py:325-358 | the contact frames of the windows sum to the numerator of the persistent recall (lines 245 and 259), and their lengths to the persistent expected frames, valid or not |
| PersistentWindows.LengthsAreDenominator | scripts/evaluation/audit_stage16d_per_finger_contact.py:245-259 | the window lengths sum to the denominator of the persistent recall, plus one iff the reset frame survives the filter |
| PersistentWindows.CoverageIsRecallIff | scripts/evaluation/audit_stage16d_per_finger_contact.py:245-259 | with only the reset frame invalid, the length-weighted coverage of the windows is the persistent recall iff frames 0 to 2 are not all expected or no persistent expected frame has contact |
| PersistentWindows.CoverageIsNotRecall | scripts/evaluation/audit_stage16d_per_finger_contact.py:245 | a concrete trace of three frames on which the two differ |
| FreeFlight.FreeFlightEvents | scripts/evaluation/audit_stage16d_per_finger_contact.py:454-472 | the audit's loops list the losses of three or more frames with contact and force before and a match right after |
| FreeFlight.LossListed | scripts/evaluation/audit_stage16d_per_finger_contact.py:456-472 | whatever the validity, an event is listed iff its three or more frames are a maximal loss (valid, some finger expected, no expected finger touching), a touch follows, and the frame before carries expected force and a valid touch |
| FreeFlight.LossesOrdered | scripts/evaluation/audit_stage16d_per_finger_contact.py:456-459 | the list is strictly increasing by episode, then frame |
| FreeFlight.ForceIsSumOverExpected | scripts/evaluation/audit_stage16d_per_finger_contact.py:462 | the force is nothing without magnitudes, and changing one finger's magnitude changes it by as much iff that finger is expected |
| FreeFlight.AuditScan | scripts/evaluation/audit_stage16d_per_finger_contact.py:458-472 | the loop over one episode's runs keeps exactly the qualifying ones in order |
| FreeFlight.Events | scripts/evaluation/classify_stage16d_reward_v3_freeflight.py:79-117 | the classifier's loops list its qualifying losses replica by replica |
| FreeFlight.EventListed | scripts/evaluation/classify_stage16d_reward_v3_freeflight.py:78-117 | an event is listed iff its three or more frames are a maximal loss, a touch follows and the frame before carries expected force, in terms of the trace's entries |
| FreeFlight.EventsOrdered | scripts/evaluation/classify_stage16d_reward_v3_freeflight.py:78-117 | the list is strictly increasing by episode, then frame |
| FreeFlight.ClassifierScan | scripts/evaluation/classify_stage16d_reward_v3_freeflight.py:82-116 | the run-finding loop equals selection over the maximal runs of the loss mask |
| FreeFlight.LossEnd | scripts/evaluation/classify_stage16d_reward_v3_freeflight.py:87-89 | the inner loop finds the end of the run that starts here |
| FreeFlight.LossMasksAgree | scripts/evaluation/classify_stage16d_reward_v3_freeflight.py:79-81 | masked and raw contact give the same match and loss masks |
| FreeFlight.PrelossContactIsImplied | scripts/evaluation/audit_stage16d_per_finger_contact.py:459-466 | where the frame before a loss carries expected force, the audit's extra contact test holds iff the loss does not start at frame 1 |
| FreeFlight.DetectorsAgree | scripts/evaluation/audit_stage16d_per_finger_contact.py:454-472 | with only the reset frame invalid, the audit reports exactly the classifier's events that do not start at frame 1, in order |
| FreeFlight.ClassifierListed | scripts/evaluation/classify_stage16d_reward_v3_freeflight.py:78-117 | an event is in the classifier's list iff it is a maximal loss of its own episode that meets the duration, force and re-contact conditions |
| FreeFlight.AuditListed | scripts/evaluation/audit_stage16d_per_finger_contact.py:454-472 | the audit lists exactly those of them that do not start at frame 1 |
| FreeFlight.DetectorsEqualIff | scripts/evaluation/audit_stage16d_per_finger_contact.py:459-468 | with only the reset frame invalid, the two lists are equal iff no episode has expected force on the reset frame and then a loss from frame 1 that re-contacts at frame 4 or later |
| FreeFlight.DetectorsDifferAtFrameOne | scripts/evaluation/classify_stage16d_reward_v3_freeflight.py:91-97 | a concrete trace with a loss at frame 1 that only the classifier reports |
| HandGroups.GroupsPartitionBodies | scripts/evaluation/audit_stage16d_strict_per_finger_v4.py:138-156 | names that pass the checks are partitioned into five groups of four, each holding its own tip, and the wrist |
| HandGroups.AcceptedIff | scripts/evaluation/audit_stage16d_strict_per_finger_v4.py:138-156 | names are accepted iff every prefix has four, there are twenty-one distinct ones with the wrist, and every tip is at its index; otherwise the first check that fails names the error |
| HandGroups.ShippedNamesAreGrouped | src/toporetarget/rl/geometry_audit/hand_collision_reconstruction.py:13-35 | the shipped body names are accepted, with these four bodies for each finger and body 0 as the wrist |
| HandGroups.WristIsTheRest | scripts/evaluation/audit_stage16d_strict_per_finger_v4.py:152-156 | the one ungrouped body is the wrist |
| HandGroups.GroupSizesAddUp | scripts/evaluation/audit_stage16d_strict_per_finger_v4.py:147-151 | prefix groups of four never overlap, so n fingers cover 4n bodies |
| StrictAudit.ExactlyOneCover | scripts/evaluation/audit_stage16d_strict_per_finger_v4.py:330-338 | every required sample is own-tip, same-finger, cross-group, wrist or fully missing, exactly one of them; an unrequired one is none |
| StrictAudit.CoverIsNearestBody | scripts/evaluation/audit_stage16d_strict_per_finger_v4.py:330-338 | each of the five labels holds iff the sample is required and the nearest touching body is the own tip, another body of the finger, another finger's, the wrist, or there is none |
| StrictAudit.FullyMissingIsNoHand | scripts/evaluation/audit_stage16d_strict_per_finger_v4.py:336 | fully missing means required while no hand body touches |
| StrictAudit.CrossTipIsCrossGroup | scripts/evaluation/audit_stage16d_strict_per_finger_v4.py:333-334 | substitution by another tip is substitution by that finger's group |
| StrictAudit.MissingUnionIsFlight | scripts/evaluation/audit_stage16d_strict_per_finger_v4.py:462-464 | the union of the fully-missing masks is the no-hand-contact flight mask |
| StrictAudit.CoverCountsSum | scripts/evaluation/audit_stage16d_strict_per_finger_v4.py:339-362 | the five counts of a finger's row sum to its required samples |
| StrictAudit.FlightEvents | scripts/evaluation/audit_stage16d_strict_per_finger_v4.py:242-288 | the loops list, by replica, kind and frame, each long missing run with its re-contact |
| StrictAudit.FlightListed | scripts/evaluation/audit_stage16d_strict_per_finger_v4.py:232-288 | an event is listed iff its three or more frames are a maximal stretch in which what its kind asks for is missing, ending in the first later frame that has it; said with the tip indices and entries of the trace |
| StrictAudit.FlightsOrdered | scripts/evaluation/audit_stage16d_strict_per_finger_v4.py:245-255 | the list is strictly increasing by replica, then kind in dictionary order, then frame |
| StrictAudit.ReplicaEvents | scripts/evaluation/audit_stage16d_strict_per_finger_v4.py:245-254 | the events of one replica over the seven kinds in dictionary order |
| StrictAudit.RunEvents | scripts/evaluation/audit_stage16d_strict_per_finger_v4.py:255-287 | the loop over one mask keeps exactly its runs of three or more frames |
| StrictAudit.NextContact | scripts/evaluation/audit_stage16d_strict_per_finger_v4.py:263-265 | the first target contact at or after the end of the loss, or none |
| StrictAudit.FlightsAreReported | scripts/evaluation/audit_stage16d_strict_per_finger_v4.py:232-288 | an event is listed iff it is a long maximal run of its kind's mask with its first later re-contact |
| StrictAudit.NoHandNestsInNoTip | scripts/evaluation/audit_stage16d_strict_per_finger_v4.py:246-256 | every listed no-hand flight lies in exactly one listed no-tip flight of its replica, with the same re-contact |
| Proximity.SpanIsRun | scripts/stage12_source_contract_qualification.py:646-649 | the listed spans are exactly the maximal runs under the threshold |
| Proximity.ThresholdRunIs | scripts/stage12_source_contract_qualification.py:646-650 | a span is listed iff all its distances are under the threshold in millimetres and no neighbour's is; spans come in order and never touch |
| Proximity.ThresholdRunsNest | scripts/stage12_source_contract_qualification.py:646-650 | a run at a smaller threshold lies in exactly one run at a larger one |
| Proximity.HocapGateIsFiveNearFrames | scripts/stage12_source_contract_qualification.py:1171-1174 | the HOCap gate holds iff five consecutive frames are under 5 mm |
| MeshPreview.KeepsExactlyTheCap | scripts/stage12_source_contract_qualification.py:594-598 | a positive cap keeps exactly the smaller of the cap and the number of faces |
| MeshPreview.PreviewOfCap | scripts/stage12_source_contract_qualification.py:594-600 | under a cap that bites, with q the integer part of faces over cap, the preview is faces 0, q, 2q and so on, re-indexed onto exactly the vertices they use in source order |
| MeshPreview.PreviewOtherwise | scripts/stage12_source_contract_qualification.py:594-600 | a cap that does not bite changes nothing, and a negative one re-indexes all but that many faces |
| MeshPreview.RaisesIff | scripts/stage12_source_contract_qualification.py:594-598 | the division raises iff the cap is zero and there is a face |
| MeshPreview.NegativeCapDrops | scripts/stage12_source_contract_qualification.py:596-598 | a negative cap keeps every face but that many from the end |
| MeshPreview.CountIsLeastIff | scripts/stage12_source_contract_qualification.py:594-598 | the smaller of cap and face count is kept iff the cap is positive or nothing has to be dropped |
| MeshPreview.OneFaceCaps | scripts/stage12_source_contract_qualification.py:594-598 | one face with a zero cap raises, and with a cap of -1 is dropped |
| MeshPreview.ChosenFromFaces | scripts/stage12_source_contract_qualification.py:596-598 | the kept faces are an ordered, strided sub-selection |
| MeshPreview.PreservesGeometry | scripts/stage12_source_contract_qualification.py:599-600 | each re-indexed corner denotes the vertex it denoted before |
| MeshPreview.EveryVertexUsedOnce | scripts/stage12_source_contract_qualification.py:599-600 | after reduction the vertices come from distinct source indices and every one is used |
| Frames.MaskingTwice | scripts/stage12_source_contract_qualification.py:887-901 | masking with the same key twice is the identity (RFC 6455 section 5.3) |
| Frames.XorBitsAt | scripts/stage12_source_contract_qualification.py:887 | each bit of the exclusive or is the sum modulo two of the two bits |
| Frames.MaskedBits | scripts/stage12_source_contract_qualification.py:887 | bit i of masked byte k is the payload's bit, flipped iff bit i of mask byte k % 4 is set |
| Frames.BigEndianRoundTrip | scripts/stage12_source_contract_qualification.py:884-897 | packing and unpacking a length that fits is the identity |
| Frames.BigEndianAt | scripts/stage12_source_contract_qualification.py:884-886 | the packed length has its most significant byte first |
| Frames.BigEndianOfValue | scripts/stage12_source_contract_qualification.py:893-897 | packing what was unpacked gives the bytes back |
| Frames.ParseInvertsEncode | scripts/stage12_source_contract_qualification.py:877-902 | parsing an encoded frame gives its opcode and payload and leaves exactly the following bytes, for every key and flag and the shortest length form |
| Frames.ParseInvertsAnyForm | scripts/stage12_source_contract_qualification.py:890-902 | so it does for a frame in any length form that holds its size |
| Frames.CutFrameIsTruncated | scripts/stage12_source_contract_qualification.py:845-853 | a frame cut short anywhere is no frame |
| Frames.EncodingsArePrefixFree | scripts/stage12_source_contract_qualification.py:877-902 | an encoded frame is not a proper prefix of another |
| WebSocket.RecvExact | scripts/stage12_source_contract_qualification.py:845-853 | however the socket splits its bytes, the result is the first bytes asked for, or a raise at end of stream |
| WebSocket.Send | scripts/stage12_source_contract_qualification.py:877-888 | what is sent is the masked text frame of the payload; lengths beyond 64 bits raise |
| WebSocket.HeaderOnTheWire | scripts/stage12_source_contract_qualification.py:877-888 | the text frame starts with 0x81, the mask bit with the shortest length form, the length most significant byte first, and the mask, byte by byte |
| WebSocket.PayloadOnTheWire | scripts/stage12_source_contract_qualification.py:887-888 | then comes every byte of the payload, bit by bit flipped where the mask byte has a one |
| WebSocket.ReadFrame | scripts/stage12_source_contract_qualification.py:890-902 | the reads of one frame parse the stream and consume exactly that frame |
| WebSocket.ReceiveFrom | scripts/stage12_source_contract_qualification.py:890-910 | the recursive receive equals its specification on the byte stream, sends exactly the pongs and terminates |
| WebSocket.ReceivePasses | scripts/stage12_source_contract_qualification.py:905-909 | control and other frames cost exactly their pongs and do not change what follows |
| WebSocket.ReceiveFirstText | scripts/stage12_source_contract_qualification.py:903-910 | with well-formed frames interleaved, the first text frame before any close is returned and the bytes after it are left |
| WebSocket.ReceiveCloseFirst | scripts/stage12_source_contract_qualification.py:903-904 | a close frame before any text frame raises |
| WebSocket.ReceiveCutFrame | scripts/stage12_source_contract_qualification.py:845-853 | if the peer closes inside a frame the read fails after answering the pings before it |
| WebSocket.SendReceiveRoundTrip | scripts/stage12_source_contract_qualification.py:877-910 | receiving what was sent returns the payload for every payload and mask and leaves what follows |
| WebSocket.PongIsFrameIffShort | scripts/stage12_source_contract_qualification.py:905-907 | the pong is a well-formed frame echoing the ping iff the ping has at most 125 bytes |
| WebSocket.PongOf126IsNoFrame | scripts/stage12_source_contract_qualification.py:906 | a concrete ping whose pong is not the frame it should be |
| WebSocket.ReceiveOversizedPing | scripts/stage12_source_contract_qualification.py:905-907 | a ping of 256 bytes or more before any text or close frame raises |
| WebSocket.MaskedEchoIsPong | scripts/stage12_source_contract_qualification.py:905-907 | the masked echo, with which the pongs are compared, is a pong frame with the ping's payload and a key |
| WebSocket.PongIsNeverMasked | scripts/stage12_source_contract_qualification.py:906 | no pong is the masked echo of its ping, under any key |
| WebSocket.PongHasMaskBitIffLong | scripts/stage12_source_contract_qualification.py:906 | the mask bit of a pong is set iff the ping has 128 bytes or more |
| WebSocket.SendsMaskedIffNoPing | scripts/stage12_source_contract_qualification.py:905-907 | what `_receive` sends before a text frame is the masked echoes of the pings it met iff it met none, which is iff it sends nothing |
| WebSocket.EmptyPingIsAnsweredUnmasked | scripts/stage12_source_contract_qualification.py:906 | a concrete ping answered without a key |
| Cdp.InboxOfNextText | scripts/stage12_source_contract_qualification.py:890-910 | a stream of frames is read as its text payloads |
| Cdp.InboxOfFrames | scripts/stage12_source_contract_qualification.py:890-910 | any valid frames deliver their texts and, for close frames and pings of 256 bytes or more, errors, in order, and get their pongs in order |
| Cdp.CdpCapture.Call | scripts/stage12_source_contract_qualification.py:912-936 | a call raises the counter, sends its request and after it exactly the pongs it owes, and changes events and stream as the call step says |
| Cdp.CallReturnsReply | scripts/stage12_source_contract_qualification.py:928-935 | a reply that waits within the budget is returned or raised by its error flag, what came before it is logged and what follows keeps waiting |
| Cdp.CallTimesOut | scripts/stage12_source_contract_qualification.py:928-936 | with no reply within the budget that many messages are logged and the call times out |
| Cdp.CallBreaks | scripts/stage12_source_contract_qualification.py:928-930 | if the stream ends or fails first the call fails, having logged what came before |
| Cdp.CallEndsIff | scripts/stage12_source_contract_qualification.py:928-936 | a call times out iff as many messages as its budget wait and none answers it, and ends otherwise iff the first item within the budget that is no message for another call makes it so |
| Cdp.CdpCapture.AwaitReply | scripts/stage12_source_contract_qualification.py:927-936 | the receive loop, run until the reply, a raise or the deadline |
| Cdp.CdpCapture.AwaitOnce | scripts/stage12_source_contract_qualification.py:930-935 | one pass of the loop either ends the call or logs the message and leaves the rest of the wait unchanged |
| Cdp.CdpCapture.NextItem | scripts/stage12_source_contract_qualification.py:930 | one receive takes exactly the next item off the stream |
| Cdp.AwaitConserves | scripts/stage12_source_contract_qualification.py:927-936 | what one call consumes is, in order, what it appended to events and then the message that ended it, which bears its id |
| Cdp.RunConserves | scripts/stage12_source_contract_qualification.py:912-936 | over any run of calls every message is waiting, logged or returned as often as it was sent |
| Cdp.WaitingIsMultiplicity | scripts/stage12_source_contract_qualification.py:912-936 | the waiting count is the multiplicity in the list |
| Cdp.LoggedIsMultiplicity | scripts/stage12_source_contract_qualification.py:935 | so is the logged count |
| Cdp.ReturnedIsMultiplicity | scripts/stage12_source_contract_qualification.py:932-934 | and the returned count that of the two outcomes |
| Cdp.RunReturnsOwnReplies | scripts/stage12_source_contract_qualification.py:920-935 | ids strictly increase, events only grows and each call returns only a message with its own id |
| Cdp.LateRepliesAreKept | scripts/stage12_source_contract_qualification.py:931-936 | a reply to an earlier call is never returned later; whenever it is read it goes to events |
| Matrices.HomogeneousMultiplicative | scripts/evaluation/audit_stage16d_phase1.py:72-89 | the homogeneous quaternion matrix of a product is the product of the matrices |
| Matrices.ApplyMul | scripts/evaluation/audit_stage16d_phase1.py:120 | a matrix product does what its factors do one after the other |
| Matrices.RotationIsItsCofactors | scripts/evaluation/audit_stage16d_phase1.py:72-89 | a rotation equals its own cofactor matrix |
| Matrices.TraceOfRelative | scripts/final_refinement_p2_report.py:97-100 | the two scripts' relative rotations have one trace |
| Rotations.MatrixIsRotation | scripts/evaluation/audit_stage16d_phase1.py:72-89 | every non-zero quaternion gives an orthogonal matrix of determinant one |
| Rotations.MatrixMultiplicative | scripts/evaluation/audit_stage16d_phase1.py:72-89 | the matrix of a quaternion product is the product of the matrices |
| Rotations.RotationVectors | scripts/evaluation/audit_stage16d_phase1.py:92-106 | the zeroed output is filled with the rotation vector exactly where the sine is not too small |
| Rotations.RotationVectorOfTurn | scripts/evaluation/audit_stage16d_phase1.py:92-106 | for a unit axis n the matrix of the quaternion (cos h, sin h n), of any length, has the rotation vector 2h n, or zero where the sine is at most 1e-8 |
| Rotations.RotationVectorLength | scripts/evaluation/audit_stage16d_phase1.py:92-106 | the rotation vector of a rotation is as long as the angle, where the sine law holds and it is not set to zero |
| Rotations.RotationVectorOfConjugate | scripts/evaluation/audit_stage16d_phase1.py:92-106 | conjugating by a rotation turns the rotation vector with it |
| Rotations.IncrementsConjugate | scripts/evaluation/audit_stage16d_phase1.py:120-126 | the local increment is the world increment seen from the earlier frame, so both have one norm |
| Rotations.IncrementOfTurn | scripts/evaluation/audit_stage16d_phase1.py:119-126 | turning by m in the world gives m's rotation vector as world increment, turning by m in the frame's axes gives it as local increment |
| Rotations.ReferenceIncrementsConjugate | scripts/evaluation/audit_stage16d_phase1.py:119-126 | the same for the matrices built from any two non-zero reference quaternions |
| Rotations.SineAndCosine | scripts/verify_f0_target_hand_foundation.py:25-36 | half the skew norm and the trace cosine of a rotation satisfy s^2 + c^2 = 1, so the clip changes nothing |
| Rotations.MetricsAgree | scripts/verify_f0_target_hand_foundation.py:24-36 | the two metrics (the other at scripts/final_refinement_p2_report.py:97-100) are one angle in radians and degrees |
| Rotations.ErrorOfTurn | scripts/verify_f0_target_hand_foundation.py:24-36 | between a rotation and the same one turned by 2h about any axis both metrics give 2h, in radians and degrees |
| Rotations.TraceCosineInRange | scripts/evaluation/audit_stage16d_phase1.py:93-94 | the cosine is within its bounds for every matrix and the trace formula wherever that is |
| Rotations.ClipIsNearest | scripts/evaluation/audit_stage16d_phase1.py:94 | clipping gives the nearest value within the bounds |
| ArchiveHistory.StepKeepsRunning | scripts/stage12_archive_compiled_worktrees.py:152-188 | every step keeps the invariant that a prefix of the children has moved, unchanged, into one of this worktree's destinations, whatever other worktrees have archived |
| ArchiveHistory.EvidenceIsNeverLost | scripts/stage12_archive_compiled_worktrees.py:152-203 | in every history over any specifications, each run cut anywhere and beside any other archives, every child of a specification is unchanged in exactly one place, one of its destinations at most holds any and nothing else moved |
| ArchiveHistory.UntargetedUnchanged | scripts/stage12_archive_compiled_worktrees.py:157-188 | a destination that no run targets is left as it was |
| ArchiveHistory.PartialMoveOnlyRaises | scripts/stage12_archive_compiled_worktrees.py:160-173 | after a partial move every run for this worktree only raises, as incomplete if its destination exists and else for missing sources, and changes nothing |
| ArchiveHistory.OtherDestinationOnlyRaises | scripts/stage12_archive_compiled_worktrees.py:170-173 | once all have moved, a run under another timestamp raises likewise and changes nothing |
| ArchiveHistory.NormalReturnMeansArchived | scripts/stage12_archive_compiled_worktrees.py:148-188 | after any history over any specifications a normal return means every child archived unchanged, a matching manifest and only build files left |
| ArchiveProgress.FreshRunCompletes | scripts/stage12_archive_compiled_worktrees.py:170-188 | beside whatever else is archived, an uncut fresh run archives every child, writes the verified inventory and returns iff only build files remain |
| ArchiveProgress.ReadmeHoldsIff | scripts/stage12_archive_compiled_worktrees.py:137-149 | from any disk, when a run gets as far as its verdict the archive's README is there and its sentence, that only build files remain, is true iff the run returns |
| ArchiveProgress.FreshRunOutcome | scripts/stage12_archive_compiled_worktrees.py:170-188 | entry by entry: the children are archived and nothing else, the worktree keeps the rest, manifest, CSV and hashes list the archive, and the run returns iff the rest is the directory build and empty directories |
| ArchiveProgress.FreshRunCutAfterMoves | scripts/stage12_archive_compiled_worktrees.py:174-177 | cut i steps into its moves a fresh run has archived exactly the first i children |
| ArchiveProgress.RerunAfterLastMove | scripts/stage12_archive_compiled_worktrees.py:160-169 | a rerun after the last move moves nothing wherever it is cut, and uncut it completes |
| ArchiveProgress.MetadataSteps | scripts/stage12_archive_compiled_worktrees.py:93-149 | the metadata steps write the four files from one inventory and raise iff other than build files remain |
| Archive.OthersUntouched | scripts/stage12_archive_compiled_worktrees.py:157-188 | a run touches no destination but its own |
| Archive.DestinationsPersist | scripts/stage12_archive_compiled_worktrees.py:160-176 | no run removes a destination |
| Archive.FirstStepDecides | scripts/stage12_archive_compiled_worktrees.py:160-173 | which of the three refusals a run raises, or where it goes on, by what is there and missing |
| Archive.MetadataInOrder | scripts/stage12_archive_compiled_worktrees.py:125-147 | wherever a run is cut no metadata file is there without those written before it |
| Archive.BuildOnlyIff | scripts/stage12_archive_compiled_worktrees.py:148-149 | nothing but files below build/ is left iff every other entry is an empty directory |
| Archive.FileAt | scripts/stage12_archive_compiled_worktrees.py:55-75 | a path names a file with a content iff the directory has it there |
| ArchiveCloseout.AcceptsIffUnchanged | scripts/stage12_verify_branch_closeout.py:40-60 | with collision-free hashes the re-verification accepts iff the archive is the single match and every listed file is unchanged |
| ArchiveCloseout.AcceptsIffEntriesKept | scripts/stage12_verify_branch_closeout.py:40-60 | entry by entry: it accepts iff the archive is the single match and every archived file is still there with its content |
| ArchiveCloseout.UnverifiedIsRejected | scripts/stage12_verify_branch_closeout.py:45-59 | an archive without a manifest, with an unverified one, or with a file whose hash is not the listed one is rejected |
| ArchiveCloseout.AcceptedIffManifestWritten | scripts/stage12_verify_branch_closeout.py:40-60 | after any history with runs cut anywhere it accepts iff there is a single match and its manifest has been written |
| ArchiveCloseout.AcceptedMeansArchived | scripts/stage12_verify_branch_closeout.py:40-60 | after any history what it accepts holds every child unchanged, and the worktree everything else |
| ArchiveCloseout.AcceptsWhateverTheVerdict | scripts/stage12_verify_branch_closeout.py:46-60 | whether the last run returned or raised over leftovers, it accepts iff there is a single match |
| ArchiveCloseout.RaisedRunIsAccepted | scripts/stage12_archive_compiled_worktrees.py:148-149 | a concrete worktree with a stray file whose run raises, although its README is written and its archive accepted |
| ArchiveCloseout.AnotherMatchBlocks | scripts/stage12_verify_branch_closeout.py:42-44 | once another matching destination exists, no later history makes it accept |
| ArchiveCloseout.AbortedDestinationBlocksCloseout | scripts/stage12_verify_branch_closeout.py:42-44 | a run cut before its first move does not stop a later run but makes the re-verification reject |
| ArchiveCloseout.AbortedRunExample | scripts/stage12_verify_branch_closeout.py:42-44 | a concrete worktree with a run cut at its second step and a run that returns, after which nothing is accepted |
| ArchiveCloseout.AcceptedIffAloneBefore | scripts/stage12_verify_branch_closeout.py:42-60 | after any history, a run that gets as far as its verdict has its archive accepted iff no other matching destination exists before the run |
| ArchiveRun.Storage.ArchiveOne | scripts/stage12_archive_compiled_worktrees.py:152-188 | the disk-changing operation, cut anywhere, ends in exactly the state of the step machine |
| ArchiveRun.Storage.CreateAndMove | scripts/stage12_archive_compiled_worktrees.py:174-177 | creating the destination and moving, as the corresponding steps |
| ArchiveRun.Storage.MoveChildren | scripts/stage12_archive_compiled_worktrees.py:176-177 | the loop moves the children one step each |
| ArchiveRun.Storage.WriteArchiveMetadata | scripts/stage12_archive_compiled_worktrees.py:93-149 | inventory, metadata files and final check, as the corresponding steps |
| ArchiveRun.ShippedChildrenAreDistinct | scripts/stage12_archive_compiled_worktrees.py:28-41 | the two shipped specifications name distinct children |
| ArchiveRun.OwnerOfName | scripts/stage12_archive_compiled_worktrees.py:157 | the label at the head of a destination's name tells whose it is |
| ArchiveRun.ShippedNames | scripts/stage12_archive_compiled_worktrees.py:157 | the destinations of the two shipped specifications are named by label, timestamp and commit, joined by underscores |
| ArchiveRun.ShippedEvidenceIsNeverLost | scripts/stage12_archive_compiled_worktrees.py:191-203 | in every history of shipped runs into one parent, with any timestamps and commits, no evidence child of either worktree is lost, duplicated or changed |
| Barrier.StepKeepsInv | scripts/stage12_scheduler_benchmark.py:130-256 | every action of parent, worker, clock or crash keeps the barrier invariant |
| Barrier.ExecuteKeepsInv | scripts/stage12_scheduler_benchmark.py:130-256 | so does every interleaving |
| Barrier.NobodyStartsEarly | scripts/stage12_scheduler_benchmark.py:222-233 | GO exists only after all ready files, and no worker starts measured frames before the last is ready |
| Barrier.NormalReturnMeansMeasured | scripts/stage12_scheduler_benchmark.py:234-242 | a normal return means every worker exited 0 with every frame of the interval saved inside the steady window, whose end some worker reports |
| Barrier.SteadyEndIsLatest | scripts/stage12_scheduler_benchmark.py:246 | in every interleaving the steady end returned is the latest end among the workers' results |
| Barrier.RaiseNeedsFault | scripts/stage12_scheduler_benchmark.py:222-242 | unless a process was killed, the parent raises only without workers, after 900 seconds, or when a finished worker did not save the whole interval |
| Barrier.NothingBeyondStop | scripts/stage12_scheduler_benchmark.py:152-176 | in every interleaving a worker saves only frames below the range's end and, but for a single frame when it resumes beyond it, none beyond the stop frame |
| Barrier.FullCountMeansAll | scripts/stage12_scheduler_benchmark.py:239-241 | a full frame count means no frame of the interval is missing |
| Barrier.SavedInIsCount | scripts/stage12_scheduler_benchmark.py:171-184 | the completed count is the number of saved frames of the interval |
| BarrierProgress.SomeRunReturns | scripts/stage12_scheduler_benchmark.py:198-256 | for any number of workers and any interval inside the range, some interleaving returns normally |
| BarrierProgress.EveryRunCanEnd | scripts/stage12_scheduler_benchmark.py:198-256 | from every reachable state, crashes and timeouts included, some continuation without a further crash ends in a normal return or a raise |
| Checkpoints.ValidMeansFirstFrames | scripts/stage12_closeout_report.py:145-168 | a chain is valid iff its files are exactly frames 0 to n - 1, the accepted list says so and nothing is invalid or orphaned |
| Checkpoints.ChainReport | scripts/stage12_closeout_report.py:145-168 | the chain is unreadable iff a file has no number; missing and orphan frames are exactly the differences, contiguous means counting up from zero |
| Checkpoints.Checkpoint.Shadow | scripts/stage12_scheduler_benchmark.py:72-104 | the shadow gets the manifest, the cut progress and a link for every frame below the cut, keeping what it had; a file without a number raises |
| Checkpoints.CutFields | scripts/stage12_scheduler_benchmark.py:82-96 | accepted, invalid and orphan frames are each cut to those below the mark, the last accepted is the last kept, next_frame is the mark, the status paused and nothing else changes |
| Checkpoints.BelowIsFilter | scripts/stage12_scheduler_benchmark.py:83-91 | cutting a list goes part by part and element by element |
| Checkpoints.Checkpoint.LinkFrames | scripts/stage12_scheduler_benchmark.py:98-103 | the link loop adds exactly the missing links below the cut |
| Checkpoints.ShadowValidIff | scripts/stage12_scheduler_benchmark.py:82-103 | a shadow of a valid chain over existing files is valid iff those files are frames the cut keeps |
| Checkpoints.FreshShadowIsValid | scripts/stage12_scheduler_benchmark.py:82-103 | a fresh shadow of a valid chain is valid, holds exactly frames 0 to min(accepted, cut) - 1 with their contents, names the last of them as last accepted, and next_frame equals its count iff the cut is within the original |
| Checkpoints.ShadowPastTheEnd | scripts/stage12_scheduler_benchmark.py:94 | a concrete shadow with one frame whose next_frame is 2 |
| Checkpoints.ShadowOfShadow | scripts/stage12_scheduler_benchmark.py:82-103 | cutting twice is cutting once at the lower mark, but for next_frame |
| Checkpoints.Contiguous | src/toporetarget/retarget/refinement_checkpoint.py:479-492 | the loop returns the longest contiguous prefix of the range and the first frame missing |
| Checkpoints.GapIsFirstMissing | src/toporetarget/retarget/refinement_checkpoint.py:479-492 | the next frame is the first of the range that is not found |
| Checkpoints.ScanIsAcceptedIff | src/toporetarget/retarget/refinement_checkpoint.py:370-395 | closeout accepts the progress the store writes iff every file is numbered and loads and together they are the first frames of a range from zero |
| Checkpoints.ScanIsAcceptedOnFiles | src/toporetarget/retarget/refinement_checkpoint.py:370-395 | on the files alone: every file is numbered, in a range from zero, and it and every frame before it loads under its canonical name |
| Checkpoints.ShadowResumesAtCutIff | src/toporetarget/retarget/refinement_checkpoint.py:463-494 | the worker's scan of a fresh shadow resumes at min(accepted, cut), so at the cut iff the cut is within the original |
| Lineage.NamesAreOrdered | scripts/stage12_dataset_validation.py:272 | names are totally ordered, so keys never tie |
| Lineage.NameLessIff | scripts/stage12_dataset_validation.py:272 | the order is the dictionary order |
| Lineage.NextOf | scripts/stage12_dataset_validation.py:269-271 | a checkpoint without a readable counter counts as at -1 |
| Lineage.MaxIsGreatest | scripts/stage12_dataset_validation.py:274 | the maximum by key exceeds every other candidate, whatever the listing order |
| Lineage.ResumeIff | scripts/stage12_dataset_validation.py:254-274 | resume chooses a checkpoint iff no candidate's progress is malformed and it is a directory with a manifest that outranks the others; the default path iff there is none, a raise iff one is malformed |
| Lineage.Closeout | scripts/stage12_closeout_report.py:99-110 | closeout accumulates the directories with a manifest and non-empty progress and returns the greatest, or none iff there is none |
| Lineage.CloseoutIff | scripts/stage12_closeout_report.py:99-110 | closeout chooses a checkpoint iff it is a directory with a manifest and a progress dictionary with some key that outranks the others, and none iff there is none |
| Lineage.LineagesAgreeIff | scripts/stage12_dataset_validation.py:251-274 | under any two listing orders resume and closeout choose the same directory iff no resumable one's progress is malformed, some one can be closed, and every resumable one without progress has a smaller key than some closable one |
| Lineage.AnyFrameMeansAgreement | scripts/stage12_dataset_validation.py:251-274 | they agree whenever some checkpoint has next_frame at least 0 and no candidate's progress is malformed |
| Lineage.LineagesCanDisagree | scripts/stage12_closeout_report.py:103 | a concrete directory on which they differ |
| Lineage.BenchmarkPicksAFurthest | scripts/stage12_scheduler_benchmark.py:59-62 | the benchmark makes a choice iff there is a checkpoint and every one has readable progress; its choice has the greatest next_frame and is the first listed among equals |
| Lineage.ResumePicksAFurthest | scripts/stage12_dataset_validation.py:266-274 | so has the validation's choice, whenever it makes one |
| Lineage.BenchmarkAgreesIff | scripts/stage12_scheduler_benchmark.py:59-62 | the two choices agree under every listing order iff every progress file can be read and exactly one checkpoint is furthest |
| Lineage.BenchmarkAgreesHereIff | scripts/stage12_scheduler_benchmark.py:59-62 | under one given listing order they agree iff every progress file can be read and the first furthest checkpoint listed exceeds the other furthest ones in modification time and name |
| Lineage.TiesFollowTheListing | scripts/stage12_scheduler_benchmark.py:59-62 | two concrete checkpoints equally far, of which the benchmark resumes whichever is listed first |

## Left out

- FreeFlight.FreeFlightEvents: does not model the statistics attached to an event (speeds, forces, masks before and during), which do not affect which events are listed.
- FreeFlight.Events: likewise only the frames of an event are modelled, not its displacement, speeds or force value.
- StrictAudit.FlightEvents: likewise without clip name, expected fingers and object statistics.
- ContactWindows.FloatingWindows: does not model the clip name, and the two classification strings are booleans.
- PersistentWindows.FindWindows: does not model the clip name.
- WebSocket.Send: takes the serialised payload and the four random bytes as parameters; JSON, UTF-8 and randomness are not modelled.
- Cdp.CdpCapture.Call: the deadline is the number of times the loop runs, chosen freely, and requests too long for a frame are excluded; a socket timeout in the middle of a frame is not modelled.
- Rotations.MetricsAgree: assumes the laws of square root, cosine, arccos and arctan2 it names, and exact reals instead of floating point.
- ArchiveCloseout.AcceptsIffUnchanged: assumes collision-free hashes, as SHA-256 is a parameter.
- ArchiveHistory.StepKeepsRunning: a same-device move and the writing of one metadata file are single steps, so a torn file is not modelled; the worktree-cleanliness and device checks before the first step are left out.
- Barrier.StepKeepsInv: parent and workers are a transition system over their files and exit codes, not classes with polling loops; sleeping is a clock action.
- Checkpoints.Checkpoint.Shadow: links are the contents they resolve to (dangling links are not modelled) and frames are visited in any order rather than sorted.
- Checkpoints.ShadowResumesAtCutIff: what makes a frame load (payload hash and strict gate) and how a frame number is printed and read back in a file name are parameters.
- Lineage.LineagesAgreeIff: progress files that are valid JSON but not dictionaries, or whose next_frame is not an integer, are not modelled.
- The retargeting solver, distance fields, graphs and reinforcement-learning environment.
- Report, CSV, HTML, image and Markdown writing, git and GitHub calls, host probing and simulator launches.
- The WebSocket handshake and fragmented messages (a continuation frame is skipped, as in the code).
- The limit on recursion depth in `_receive`.
- NumPy percentiles, entropy, medians, rounding and timing thresholds; the compensation and force-concentration statistics.
- Status-string cascades and merge-gate dictionaries.
