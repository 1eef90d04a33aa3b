# Frame hand-off protocols and format kernels of the broadcast server, in Dafny

The server is a set of small hand-written protocols that pass video frames between
threads and processes, and a few format and arithmetic kernels. This project models
those parts and proves what they keep over every run. `dafny verify dfyconfig.toml`
checks all of it.

How a component is laid out:

- the state and one transition per callback, lock section or atomic access, as a
  datatype and functions (`source_worker.dfy`, `export_dest.dfy`, ...);
- the properties of every run, as lemmas about those functions (`*_safety.dfy` and
  the like), each with an invariant proved step by step;
- the code's own form - classes over arrays, loops, in-place updates - as methods
  proved to do what the functions say (`*_callbacks.dfy`, `*_rings.dfy`,
  `*_queue.dfy`, `*_io.dfy`, `*_loop.dfy`, or a class in the same file).

Components:

- JSON (`json_*.dfy`): print and parse of unbounded trees, the grammar of the texts
  that are accepted (`json_grammar.dfy`), the doubling buffer, and where the string
  rules depart from RFC 8259.
- The single-producer single-consumer queue (`spsc_queue.dfy`): every load and store
  is a step; the threads' steps interleave freely.
- Captured frames: the worker's lease table with restart and recovery
  (`source_worker*.dfy`), the server's four-deep ring (`frame_slot*.dfy`), the
  compositor's pending releases (`pending_releases*.dfy`), and the whole way of a
  frame and its acknowledgement, with loss and delay (`lease_protocol.dfy`,
  `lease_delivery.dfy`), also with the compositor's real arrays in it
  (`lease_end_to_end.dfy`).
- Native canvas leases: exporter, encoder thread, preview thread and shutdown
  (`output_router*.dfy`), with a proof that shutdown ends (`output_router_shutdown.dfy`).
- Encoder bookkeeping: matching packets to inputs under reordering, and timestamps
  (`direct_venc*.dfy`).
- Export slots with deferred free (`export_dest*.dfy`): call by call, load by load
  (`export_dest_races.dfy`), and the order of consumption (`export_dest_order.dfy`).
- WebSocket text frames of RFC 6455 (`ws_frame*.dfy`), said bit by bit and byte by
  byte in `ws_frame_format.dfy`.
- Frame pacing (`pacing*.dfy`) and blitter clipping (`ge2d_clip.dfy`).

Where the code does not do what its format or name suggests, the model follows the
code, and a lemma gives an input or says exactly when it does:

- `\uXXXX` in a JSON string is read as the letter u and four digits
  (`UnicodeEscapeIsMisread`); a string is read as RFC 8259 says exactly when it has
  no such escape. Control characters other than newline, carriage return and tab are
  printed raw, which RFC 8259 forbids; printing is legal exactly when there are none.
- Vertical tab and form feed pass for white space, and a number may have a plus sign,
  leading zeros and a point with digits on one side only (`LaxTextIsAccepted`);
  `AcceptsExactlyTheGrammar` says of every text whether it is accepted, and as what.
- A queue asked for a power of two holds one item less than asked for, and a queue
  of capacity 1 holds nothing (`RoomForRequested`).
- `publish` on a full ring without a release function loses the dropped frame
  (`AFullRingLosesAFrame`); a dropped frame is released exactly if a function was set
  when it was dropped (`ToldIffSetWhenDropped`, `AllReleasedIff`).
- A failed submission releases every lease retained for the encoder, B-frames or not
  (`AFailureReleasesTheRing`); exactly the leases with no failure after them are held
  (`HeldIffNoLaterFailure`).
- A hard encoder error uses up an id, after which the codec's numbers and the ids
  differ and packets get other frames' times (`AnErrorMisattributes`,
  `OwnFrameIffNoErrorBetween`).
- A poll of export fences that sees a later one signalled and not an earlier one hands
  frames out of order (`OutOfOrderWhenALaterFenceIsSeenFirst`, `PollKeepsOrderIff`).
- Export slots are released and retired by two threads without a common lock. A retire
  between a release's load and its last store loses the slot for good, one between a
  submission's publishing and its increment leaks a reference, two of the same target
  take it off twice, and one that checks the flag left from the slot's last use frees a
  slot in use (`export_dest_races.dfy`, with a run for each).
- A ping between fragments, which RFC 6455 allows, ends the read
  (`OtherFramesEndTheRead`); reserved bits and lengths in a longer form than needed,
  which it forbids, are read (`ReaderAcceptsExactly` says which bytes are).
- Trimming at the right and lower edges divides by the length plus the overrun, so
  too little of the source goes (`HalfOverTrimsAThird`, `HighTrimIsProportionalIff`).

## Model

| member | source | states |
|---|---|---|
| JsonRoundTrip.RoundTrip | src/common/cjson_stub.c:187-371 | Parsing the printed text of any tree gives the same tree back: keys, order and duplicates included |
| JsonRoundTrip.PrintedValueParses | src/common/cjson_stub.c:98-227 | Parsing a printed value followed by nothing, white space, a comma, a closing bracket or brace returns the value and stops exactly there |
| JsonRoundTrip.PrintIsInjective | src/common/cjson_stub.c:257-332 | Different trees print differently |
| JsonRoundTrip.PrintedStringParses | src/common/cjson_stub.c:49-94 | The unescaper undoes the escaper on every string, and stops behind the closing quote |
| JsonRoundTrip.SpacedTextParses | src/common/cjson_stub.c:41-227 | With any white space of RFC 8259 section 2 before, between and behind the tokens of its printed text, every tree is still read back |
| JsonRoundTrip.LeftoverIsRefused | src/common/cjson_stub.c:334-351 | With anything but white space behind it such a text is refused, unless what follows would lengthen a number |
| JsonGrammar.AcceptsExactlyTheGrammar | src/common/cjson_stub.c:41-227 | Of any text at all: it is accepted, as this tree, if and only if the tree is written so with white space around its tokens, each string unescaped and each number the longest decimal token, an integer up to 2^53 by its value |
| JsonRoundTrip.LaxTextIsAccepted | src/common/cjson_stub.c:41-47 | A text that RFC 8259 refuses is accepted: a vertical tab, a plus sign and a point without digits behind it |
| JsonRfc8259.ScannerAgreesWithRfc | src/common/cjson_stub.c:49-94 | On every legal string, surrogate pairs included, the scanner ends where RFC 8259 section 7 says, and yields the string meant if and only if it has no \u escape |
| JsonRfc8259.UnicodeEscapeIsMisread | src/common/cjson_stub.c:64-86 | The escape \u0041 is read as the five bytes u0041 |
| JsonRfc8259.PrintedStringIsRfc | src/common/cjson_stub.c:257-273 | A printed string is legal JSON, read back by any conforming reader, if and only if its only control characters are newline, carriage return and tab |
| JsonPrinter.GrowIsLeast | src/common/cjson_stub.c:229-239 | The doubling loop ends at the least of 0 or 128 times a power of two that fits, and never shrinks |
| JsonPrinter.StringBuilder.Reserve | src/common/cjson_stub.c:229-239 | Reserving keeps the text, makes room for what was asked and the terminator, and the bytes moved by all regrowth stay below the capacity |
| JsonPrinter.StringBuilder.Append | src/common/cjson_stub.c:241-248 | The buffer holds the concatenation of everything appended, with its terminator |
| JsonPrinter.PrintStringTo | src/common/cjson_stub.c:257-273 | The escaping loop appends exactly the printed form of the string |
| JsonPrinter.PrintItem | src/common/cjson_stub.c:275-332 | The recursive printer appends exactly the printed form of the tree |
| JsonPrinter.PrintUnformatted | src/common/cjson_stub.c:366-371 | The text returned is the printed form of the tree |
| JsonParser.ParseStringToken | src/common/cjson_stub.c:49-94 | The unescaping loop accepts the same tokens, with the same string and end, as the scanner of the round trip |
| JsonParser.ParseItemsAt | src/common/cjson_stub.c:98-133 | The loop over elements accepts the same items, with the same end, as the recursive definition of the round trip |
| JsonParser.ParseMembersAt | src/common/cjson_stub.c:135-185 | The loop over members accepts the same members, with the same end |
| JsonParser.ParseText | src/common/cjson_stub.c:334-351 | The parser accepts a text exactly when the definition does, with the same tree |
| SpscQueue.NextPow2 | src/common/spsc_queue.c:6-15 | On 32-bit words, the least power of two not below the argument |
| SpscQueue.RoomForRequested | src/common/spsc_queue.c:17-39 | The ring has room for the capacity asked for if and only if that is not a power of two |
| SpscQueue.MaskWraps | src/common/spsc_queue.c:49-60 | Masking the next index of a power-of-two ring wraps it to 0 at the end and nowhere else |
| SpscQueue.PoppedIsPrefixOfPushed | src/common/spsc_queue.c:49-73 | Under every interleaving the popped items are a prefix of the pushed ones, and the ring never holds more than its size less one |
| SpscQueue.PushRefusesIffFull | src/common/spsc_queue.c:49-60 | A push refuses exactly if the queue is full at the instant it loads head |
| SpscQueue.PopIsNullIffEmpty | src/common/spsc_queue.c:62-73 | A pop returns NULL exactly if the queue is empty at the instant it loads tail |
| SpscQueue.PopReturnsOldest | src/common/spsc_queue.c:62-73 | What a pop hands out is the oldest item not yet popped, and not NULL |
| SpscQueue.NoSlotIsShared | src/common/spsc_queue.c:49-73 | The producer about to write and the consumer about to read or clear are never at the same slot |
| SpscQueue.CountReports | src/common/spsc_queue.c:75-80 | count, with any steps between its two loads, reports the items pushed by the first and not popped by the second, if and only if that is not negative |
| SpscQueue.Queue.Push | src/common/spsc_queue.c:49-60 | An undisturbed push is the machine's push, and refuses exactly if full |
| SpscQueue.Queue.Pop | src/common/spsc_queue.c:62-73 | An undisturbed pop is the machine's pop: the oldest item, or NULL exactly if empty |
| FrameSlot.EveryFrameHasOneFate | src/server/engine/frame_slot.c:54-189 | After any operations: produced = handed out + dropped + held, each frame has exactly one of these fates, the ring holds the newest, and any mix of take and take_oldest hands out in strictly increasing order |
| FrameSlot.KeepsTheLastFour | src/server/engine/frame_slot.c:60-89 | A ring that is only written to holds exactly the last four frames, or all if fewer, in order |
| FrameSlot.TakeHandsOutTheNewest | src/server/engine/frame_slot.c:111-144 | In every state a run can reach take hands out the frame published last and drops every other one held; an empty ring stays as it is |
| FrameSlot.TakeOldestLeavesTheRest | src/server/engine/frame_slot.c:146-174 | In every such state take_oldest hands out the oldest frame held, by its number, and leaves the others |
| FrameSlot.PublishAppends | src/server/engine/frame_slot.c:54-89 | A publication joins the new end, dropping the oldest if and only if four are held; NULL is not published |
| FrameSlotReleases.ToldIffSetWhenDropped | src/server/engine/frame_slot.c:10-89 | Over every run, the release function set and taken away at will, a dropped frame is passed to it if and only if one was set at the operation that dropped it |
| FrameSlotReleases.ReleasedAreTheTold | src/server/engine/frame_slot.c:10-26 | Over every run, it is called with exactly those frames' entries, in the order dropped |
| FrameSlotReleases.AllReleasedIff | src/server/engine/frame_slot.c:10-189 | Over every run, it was called with every dropped frame, in order, and nothing else, if and only if one was set at every operation that drops |
| FrameSlotReleases.AFullRingLosesAFrame | src/server/engine/frame_slot.c:54-89 | Five frames published to a ring without one: the first is dropped and nothing released |
| FrameSlot.Ring.Exchange | src/server/engine/frame_slot.c:60-89 | The in-place ring does the publication, and returns the dropped frame exactly if it was full and nothing else receives it |
| FrameSlot.Ring.PublishFrame | src/server/engine/frame_slot.c:54-58 | publish does the same and passes a returned frame to the release function, if any |
| FrameSlot.Ring.TakeNewest | src/server/engine/frame_slot.c:111-144 | take drops all but the newest frame, hands that one out, and leaves every other entry NULL |
| FrameSlot.Ring.TakeOldestFrame | src/server/engine/frame_slot.c:146-174 | take_oldest hands out the oldest frame and leaves the rest |
| FrameSlot.Ring.FlushAll | src/server/engine/frame_slot.c:176-189 | flush drops every held frame, oldest first |
| FrameSlot.Ring.Stats | src/server/engine/frame_slot.c:191-205 | The counters are the numbers of frames published, dropped, handed out and held |
| SourceWorkerSafety.EveryFrameGoesHomeOnce | src/worker/source_worker.c:1668-1707 | Over every run a device frame is still leased, or was handed back exactly once, to the context it came from |
| SourceWorkerSafety.NotBackBeforeItsAck | src/worker/source_worker.c:1684-1699 | While its context is open, a frame that was sent goes back only after its own sequence was acknowledged |
| SourceWorkerSafety.ActiveSequencesDistinct | src/worker/source_worker.c:1649-1699 | Active lease sequences are pairwise distinct and below the frame counter |
| SourceWorkerSafety.CounterNeverGoesBack | src/worker/source_worker.c:2119-2175 | No callback, restart or recovery takes the frame counter back; each advances it by at most one |
| SourceWorkerSafety.LateAckFreesNoOther | src/worker/source_worker.c:1684-1699 | A release message, however late, changes no frame but the one sent under its sequence |
| SourceWorkerSafety.LeaseTableNeverFull | src/worker/source_worker.c:1996-2126 | The branch for a full lease table is never taken |
| SourceWorkerSafety.StatsAddUp | src/worker/source_worker.c:1528-1558 | In every statistics window attempts = ok + timeouts + nosig + errors, and ok = sent + no_fd + split + lease_full + would_block + send_errors |
| SourceWorkerSafety.ClosedExactlyWhenRecovering | src/worker/source_worker.c:1823-1936 | Between callbacks the device is closed if and only if recovering; then nothing is leased, and unless shutting down the recovery timer is armed |
| SourceWorkerRecovery.ReopensAfterThreeEqualReadings | src/worker/source_worker.c:1890-1936 | A recovery timer reopens the device if and only if the driver lets it and this reading and the two before it show the same signal |
| SourceWorkerRecovery.OnlyTheTimerReopens | src/worker/source_worker.c:1823-1936 | Nothing but that timer ends a recovery |
| SourceWorkerCallbacks.Capture.StoreLease | src/worker/source_worker.c:1649-1666 | The search loop fills the first free place and no other |
| SourceWorkerCallbacks.Capture.ReleaseBySequence | src/worker/source_worker.c:1684-1699 | The search loop releases the first active lease of the sequence and counts an unknown one |
| SourceWorkerCallbacks.Capture.ReleaseAll | src/worker/source_worker.c:1701-1707 | Every active lease is released, in table order |
| SourceWorkerMeaning.RecoveryHandsEverythingBack | src/worker/source_worker.c:1854-1888 | A recovery hands each leased frame back once, to the context it came from, touches no other, and leaves the device closed with the timer armed; a second one, or one while shutting down, changes nothing |
| SourceWorkerMeaning.RestartHandsEverythingBack | src/worker/source_worker.c:1823-1852 | A restart hands each leased frame back once and leaves either a context never used before or a recovery |
| SourceWorkerMeaning.AcquiredFrameHasOneOutcome | src/worker/source_worker.c:1984-2182 | A frame acquired is leased and sent under the next sequence, or is back with the driver and counted as exactly one failure; no other frame or lease changes |
| SourceWorkerMeaning.RecoveryAndRestartIff | src/worker/source_worker.c:1560-1647 | Over every run, outside a recovery: one begins if and only if the device reports a source change or a lost signal, or this is the 120th acquisition in a row without a signal, or the fourth slow window in a row and the device does not reopen; a restart happens if and only if it then does |
| SourceWorkerMeaning.EverythingHomeAtExit | src/worker/source_worker.c:2340 | After the close at the worker's exit every frame ever acquired was handed back exactly once, to the context it came from |
| SourceWorkerMeaning.AckFreesItsLease | src/worker/source_worker.c:1938-1982 | The release message with a leased frame's sequence ends its lease and hands it back |
| SourceWorkerMeaning.ReleaseMessagesAreCounted | src/worker/source_worker.c:1684-1699 | A release message is counted as an acknowledgement if and only if an active lease has its sequence, and otherwise as unknown, and then changes no lease and no frame |
| SourceWorkerMeaning.NothingIsAcquiredWhenFull | src/worker/source_worker.c:1984-2002 | With 16 frames in flight nothing is acquired; only the occasion is counted |
| SourceWorkerMeaning.ShutdownIsFinal | src/worker/source_worker.c:1854-1900 | After a shutdown message, whatever follows: no frame is acquired, no context opened and no recovery begun |
| LeaseProtocol.EverySequenceInOnePlace | src/server/engine/frame_slot.c:207-228 | Over every run of worker, channels and server, each sequence ever sent is in exactly one place |
| LeaseEndToEnd.BagIsWhatTheArraysHold | src/server/engine/compositor_thread.c:815-939 | With the compositor's pending arrays in the protocol, over every run: the sequences it has and has not released are exactly those of the frames in its arrays, each in one place, so it releases each at most once |
| LeaseEndToEnd.LentWhilePending | src/server/engine/compositor_thread.c:150-239 | While such an array still holds a frame, the worker's lease of it stands, unless its context is gone |
| LeaseEndToEnd.NothingKeptAtStop | src/server/engine/compositor_thread.c:241-247 | After the forced drain every sequence the compositor ever took is in an acknowledgement, acknowledged or lost |
| LeaseProtocol.BackExactlyWhenAcknowledged | src/worker/source_worker.c:1668-1707 | While its context is open a sent frame is back with the driver if and only if its acknowledgement arrived; so never while the server still has it |
| LeaseProtocol.LeasesAreAccountedFor | src/worker/source_worker.c:2119-2175 | A lease is held only while its frame is on its way, at the server, or in an acknowledgement, or because a message was lost |
| LeaseProtocol.HandedBackAtMostOnce | src/worker/source_worker.c:1812-1821 | Whatever is lost or late, each device frame is handed back at most once and only to its own context |
| LeaseDelivery.WhatIsNotLostComesHome | src/server/engine/frame_slot.c:207-228 | In every state a run can reach, a frame that was sent and whose messages are not lost can come home, back to its driver, without anything but receiving, releasing and acknowledging: nothing on the way is ever stuck |
| LeaseDelivery.ReceivedJoinsTheRing | src/server/engine/frame_slot.c:60-89 | A message received becomes the newest frame of the ring; if four were held the oldest is released and acknowledged |
| LeaseDelivery.TakeGivesTheNewest | src/server/engine/frame_slot.c:111-144 | take gives the compositor the newest frame and acknowledges the others |
| PendingReleases.EveryFrameOnce | src/server/engine/compositor_thread.c:815-939 | Over every run each frame taken from a slot is pending in one place or was released exactly once |
| PendingReleases.EntriesInOrder | src/server/engine/compositor_thread.c:209-239 | No entry holds more than 32 frames, and each holds them in the order taken |
| PendingReleases.AllReleasedAtStop | src/server/engine/compositor_thread.c:241-247 | The forced drain releases everything still pending: then every frame ever taken was released once |
| PendingReleases.CompactionSplits | src/server/engine/compositor_thread.c:150-192 | Compaction splits the pending frames, none lost and none doubled, into those kept and those released |
| PendingReleasesLeaving.LeavesOnlyFor | src/server/engine/compositor_thread.c:150-239 | A step gives a frame back if and only if its import has finished, it was not uploaded, no native canvas is in use or the batch is full, the render failed, the entry has no room, or the thread stops |
| PendingReleasesLeaving.StaysIffInUse | src/server/engine/compositor_thread.c:126-192 | When an entry is drained, unforced or to attach a batch, a frame with slot below 32, import in 0..15 and an active import stays pending and every other frame of the entry is released, each in its order; the other entries do not change |
| PendingReleasesLeaving.BatchIsAttached | src/server/engine/compositor_thread.c:209-239 | Behind what stayed the batch follows in its order; from the 33rd place on its frames are released at once |
| PendingReleasesLeaving.PendingIsAsUploaded | src/server/engine/compositor_thread.c:815-939 | Over every run the slot, import and inode noted of a pending frame are those of its upload |
| PendingReleasesRows.Row.ReleasePending | src/server/engine/compositor_thread.c:150-192 | In-place compaction keeps the four arrays aligned and in order, clears the tail, and releases the rest in order |
| PendingReleasesRows.Row.AttachBatch | src/server/engine/compositor_thread.c:209-239 | Attaching first releases what is finished, appends what fits and releases the overflow at once |
| OutputRouterSafety.EveryLeaseInOnePlace | src/server/engine/output_router.c:300-595 | Over every interleaving each acquired lease is in exactly one of a thread's hands, queue, retain ring, mailbox, or released, once |
| OutputRouterSafety.AllReleasedWhenFreed | src/server/engine/output_router.c:1289-1361 | When free returns every lease ever acquired was released exactly once |
| OutputRouterShutdown.FreeReturns | src/server/engine/output_router.c:1289-1361 | Whatever the run so far, once free is called it returns, after at most as many stretches as there is work left, in each of which every thread gets a step, whatever else happens in between |
| OutputRouterShutdown.NothingIsAcquiredAfterFree | src/server/engine/output_router.c:1289-1361 | Once free has been called no lease is acquired any more |
| OutputRouterSafety.SubmittedInOrder | src/server/engine/output_router.c:365-489 | Frames reach the encoder in the order acquired, whatever is dropped |
| OutputRouterSafety.LastEightAreHeld | src/server/engine/output_router.c:300-327 | Until the encoder thread exits, the leases of the last eight frames retained since B-frames were turned on and since a submission last failed are unreleased |
| OutputRouterSafety.RetainRingNeverFull | src/server/engine/output_router.c:300-327 | Over every run the ring of 16 holds at most eight when a lease is to be retained, so the branch for a full one is never taken |
| OutputRouterFailures.HeldIffNoLaterFailure | src/server/engine/output_router.c:477-482 | With B-frames on throughout, whenever the encoder thread has not exited and is not giving leases up, the lease of one of the last eight submitted frames is unreleased if and only if no submission after it failed |
| OutputRouterFailures.AFailureReleasesTheRing | src/server/engine/output_router.c:447-482 | A run with B-frames on throughout in which the only frame submitted has lost its lease to a failed submission |
| OutputRouterSafety.ReleasedOldestFirst | src/server/engine/output_router.c:329-342 | A lease that leaves the retain ring is the first acquired of those in it |
| OutputRouterRouting.OutputLeaseGoes | src/server/engine/output_router.c:365-402 | In every state a run can reach: an output lease for the encoder joins the queue if and only if a manager is set and the thread runs, and then takes the place of the oldest if two wait; otherwise it goes back |
| OutputRouterRouting.PreviewLeaseGoes | src/server/engine/output_router.c:491-522 | In every such state a preview lease replaces the one that waits if and only if there is an engine and its thread runs; otherwise it goes back |
| OutputRouterRouting.EncoderDecides | src/server/engine/output_router.c:437-485 | A lease is submitted if and only if a manager was set when it was taken and its descriptor could be duplicated, and retained if and only if it was submitted with B-frames on; without a manager it alone goes back, otherwise the retained ones go first |
| OutputRouterFailures.HeldThroughTheReorderDelayIff | src/server/engine/direct_venc.c:346-362 | For every pattern with B-frames, whenever the thread has not exited and is not giving leases up, of as many of the last submitted frames as its delay, exactly those after which no submission failed still have their leases |
| OutputRouterRings.HandOff.EnqueueLease | src/server/engine/output_router.c:365-402 | In place: a full queue releases its oldest lease, the new one joins the end, and a refused one stays with the caller |
| OutputRouterRings.HandOff.RetainLease | src/server/engine/output_router.c:300-327 | In place: what leaves the ring is released, oldest first, and the newest eight stay |
| OutputRouterRings.KeepStepsRetain | src/server/engine/output_router.c:300-327 | The encoder thread's steps that retain a lease add up to that |
| OutputRouterRings.HandOff.ReleaseRetained | src/server/engine/output_router.c:329-342 | Everything retained is released, oldest first |
| OutputRouterRings.HandOff.EnqueuePreview | src/server/engine/output_router.c:491-522 | The mailbox keeps the latest lease and releases the one it replaces |
| OutputRouterRings.HandOff.DrainQueue | src/server/engine/output_router.c:1336-1361 | Shutdown empties the queue and releases its leases, oldest first |
| DirectVencSafety.IdsIncrease | src/server/engine/direct_venc.c:464-507 | Over every run pending ids are strictly increasing and below the next id |
| DirectVencSafety.WouldBlockRestores | src/server/engine/direct_venc.c:800-814 | A submission that would block restores queue and counter exactly |
| DirectVencSafety.EveryPacketGetsItsOwnTimes | src/server/engine/direct_venc.c:464-490 | If the codec numbers inputs one by one, from anywhere, and its first packet is the oldest, then without hard errors or cuts every packet gets its own input's timestamps, under any reordering |
| DirectVencErrors.OwnFrameIffNoErrorBetween | src/server/engine/direct_venc.c:464-507 | Over every run with B-frames and any hard errors, a packet gets its own frame if and only if that waits and no hard error came between the first accepted input and this one, or nothing waits under the id looked for and its own frame is the oldest |
| DirectVencErrors.AnErrorMisattributes | src/server/engine/direct_venc.c:807-820 | After one hard error, a run of a codec that keeps its bargain in which a packet made from the third input carries the second one's times |
| DirectVencErrors.WithoutBframesErrorsAreHarmless | src/server/engine/direct_venc.c:464-507 | Without B-frames, whatever errors came and however the codec numbers, a packet carries the times of the input it answers |
| DirectVencPackets.PlainPacket | src/server/engine/direct_venc.c:836-847 | Over every run without B-frames: a packet has the presentation time and duration of the input it answers, and its decoding time, or the presentation time if that is unknown, or the time its id makes |
| DirectVencPackets.ReorderedPacket | src/server/engine/direct_venc.c:402-453 | Over every run with B-frames: a packet is shown 4, 3, 3, 4 or 8 frames, by pattern, after its frame's own time, and decoded at that time or one duration after the packet before, whichever is later, as long as that fits in 64 bits |
| DirectVencPackets.PacketLastsAndIsKey | src/server/engine/direct_venc.c:845-860 | Over every run a packet lasts as long as its frame, and is a key frame if and only if the caller asked for one with that frame, the frame opened the stream or a group of pictures, or the codec says so |
| DirectVencPackets.UnnumberedTakesTheOldest | src/server/engine/direct_venc.c:464-490 | A packet the codec does not number belongs to the oldest waiting frame and fixes no numbering |
| DirectVencPackets.FrameDurationRoundsDown | src/server/engine/direct_venc.c:364-373 | A frame lasts a second divided by the frame rate, rounded down; at 60 a second if no rate is given |
| DirectVencDts.DtsAdvances | src/server/engine/direct_venc.c:402-453 | With B-frames every decoding time is at least one duration after the one before, as long as it fits in 64 bits |
| DirectVencDts.DtsNeverAfterPts | src/server/engine/direct_venc.c:402-453 | With even inputs and packets at most a early and b late, a + b within the pattern's delay, no packet is decoded after it is shown |
| DirectVencTight.DelayIsTight | src/server/engine/direct_venc.c:346-362 | For every pattern a run of a codec that keeps its bargain, with even inputs and one place more of reordering, in which a packet is to be decoded after it is to be shown |
| DirectVencQueue.Encoder.TakeMatch | src/server/engine/direct_venc.c:464-490 | The search loop unlinks the frame with the matching id, or the oldest |
| DirectVencQueue.Encoder.PendingPrune | src/server/engine/direct_venc.c:509-534 | Pruning frees all but the newest buffers in place and cuts the queue at 4096 |
| DirectVencPackets.PrunedToTheNewest | src/server/engine/direct_venc.c:509-534 | Pruning leaves the input buffers of exactly the newest frames, by the pattern's delay and four more, and keeps the newest 4096 frames as they are |
| DirectVencDts.OnePacket | src/server/engine/direct_venc.c:402-453 | With B-frames, as long as times fit in 64 bits, a packet is shown at its input's time plus the delay, and decoded at its input's time or one duration after the last packet, whichever is later |
| DirectVencQueue.Encoder.SubmitCommon | src/server/engine/direct_venc.c:764-895 | For every answer of the codec, the packet and the new queue, ids and times are those the theorems above are about |
| ExportDestSafety.RefsCountTargets | src/server/engine/compositor.c:5374-5383 | Call by call, a slot's reference count is the number of render targets pointing at it; a free slot has none |
| ExportDestSafety.FreeSlotIsUnreferenced | src/server/engine/export_dest.c:277-312 | The slot a submission claims is pointed at by no render target |
| ExportDestSafety.ReleaseFreesIff | src/server/engine/export_dest.c:370-390 | A release frees the slot at once if and only if no render target points at it |
| ExportDestSafety.FreedByTheLastRetire | src/server/engine/compositor_thread.c:694-739 | Call by call, a slot released before that stays out of use until, and is free with, the step after which none does |
| ExportDestSafety.HeldSlotIsLeftAlone | src/server/engine/export_dest.c:337-368 | While a consumer holds a slot nothing but its release changes the slot's frame or state |
| ExportDestSlots.FreeSlotIsFirst | src/server/engine/export_dest.c:277-291 | The search finds no slot if and only if all eight are taken; otherwise it finds the first free one from the index on, going round |
| ExportDestSlots.RunDropsExactlyWhenFull | src/server/engine/export_dest.c:277-312 | Over every run the frames a destination counts as dropped are the submissions that found all its eight slots taken |
| ExportDestSlots.SubmissionTakesTheFirstFree | src/server/engine/export_dest.c:277-321 | Any other submission takes that slot for its frame and target, or gives it back if the GPU queue refuses, and the next search starts behind it |
| ExportDestOrder.PollKeepsOrderIff | src/server/engine/export_dest.c:323-368 | Whatever a poll sees, the frames stay in order if and only if nothing can be handed out or some frame that can is older than every one seen unsignalled |
| ExportDestOrder.ConsumedInOrderIff | src/server/engine/export_dest.c:337-368 | Over every run, whatever its polls see: consumed frame numbers increase if every poll met that condition and, once nothing is outstanding, only if |
| ExportDestOrder.InOrderIffPollsAre | src/server/engine/export_dest.c:337-368 | At any time, they increase with nothing older outstanding if and only if every poll met it |
| ExportDestOrder.WatermarkPollsAreInOrder | src/server/engine/export_dest.c:323-335 | Fences that signal in submission order and not during a poll make every poll meet it |
| ExportDestOrder.OutOfOrderWhenALaterFenceIsSeenFirst | src/server/engine/export_dest.c:337-368 | A run in which a poll sees only the later of two fences and frame 2 is consumed before frame 1 |
| ExportDestRing.Destination.AcquireSlot | src/server/engine/export_dest.c:277-312 | The round-robin search claims the first free slot from the index on, or counts a drop exactly when none is free |
| ExportDestRing.Destination.AcquireReadySlot | src/server/engine/export_dest.c:337-368 | Poll and search in place hand out the ready slot with the lowest frame number |
| ExportDestRaces.CountAccounts | src/server/engine/compositor.c:5374-5426 | With every load and store of submission, release and retire a step, over every run: the count and what is still to be counted or was taken off twice make up the targets still to be taken off and what was leaked; at rest the count is right if and only if as many leaked as doubled |
| ExportDestRaces.LostExactlyWhenMissed | src/server/engine/export_dest.c:370-390 | While none leaked or doubled and no slot was freed early, at rest the slot is as the atomic operations leave it, or is in use with nobody to free it, exactly when the last retire was missed |
| ExportDestRaces.MissedExactlyByOverlap | src/server/engine/compositor_thread.c:732-736 | Over every run, the last retire is missed if and only if the compositor checked the release flag, or freed the slot, between a release's load of the count and its last store, and no retire has freed the slot since without missing again |
| ExportDestRaces.LostExactlyByOverlap | src/server/engine/export_dest.c:370-390 | So, while none leaked or doubled and no slot was freed early, at rest the slot is lost if and only if that happened |
| ExportDestRaces.LostForever | src/server/engine/export_dest.c:277-312 | No step changes a lost slot |
| ExportDestRaces.AReleaseOverlappedByTheLastRetireLosesTheSlot | src/server/engine/export_dest.c:384-389 | A run that loses a slot so |
| ExportDestRaces.LeaksExactlyBeforeTheCount | src/server/engine/compositor.c:5378-5381 | A reference is first leaked exactly when the compositor loads the count between a submission's publishing of the slot and its increment |
| ExportDestRaces.ARetireBeforeTheCountLeaks | src/server/engine/compositor.c:5378-5381 | A run that leaks one |
| ExportDestRaces.DoublesExactlyWhenBothRetire | src/server/engine/compositor.c:5374-5377 | A reference is first taken off twice exactly when the unlocked retire of a submission and the compositor's retire the same target and one subtracts after the other did |
| ExportDestRaces.TwoRetiresTakeTheCountBelowZero | src/server/engine/compositor.c:5414-5426 | A run in which they do |
| ExportDestRaces.FreedEarlyExactlyByAStaleFlag | src/server/engine/export_dest.c:314-321 | A slot is first freed while submitted, ready or held exactly when the compositor frees it then on the release flag left from its last use, checked between a submission's count and its clearing of the flag |
| ExportDestRaces.AStaleFlagFreesAHeldSlot | src/server/engine/compositor_thread.c:732-736 | A run in which a consumer so holds a free slot |
| ExportDestRaces.UndisturbedRelease | src/server/engine/export_dest.c:370-390 | Undisturbed, the loads and stores of a release are the atomic one |
| ExportDestRaces.UndisturbedRetire | src/server/engine/compositor_thread.c:732-738 | Undisturbed, those of a retire are the atomic one |
| ExportDestRaces.UndisturbedSubmit | src/server/engine/compositor.c:5378-5383 | Undisturbed, those of a submission point the target at the slot, count it and mark it submitted as the atomic one does |
| ExportDestRaces.UndisturbedDisplacement | src/server/engine/compositor.c:5374-5377 | Undisturbed, those of a submission that takes the target away from another slot retire that slot as the atomic one does |
| WsFrame.MessageIsRead | src/server/api/ws_server.c:200-291 | However a text message is split and masked, its text is returned and exactly it is consumed, if and only if it is within 192 MiB |
| WsFrame.StreamIsRecovered | src/server/api/ws_server.c:200-291 | A stream of messages is recovered one by one |
| WsFrame.OtherFramesEndTheRead | src/server/api/ws_server.c:219-232 | Any other frame between or before fragments ends the read |
| WsFrame.ServerFrameDecodes | src/server/api/ws_server.c:58-86 | The frame the server builds decodes to its payload and length |
| WsFrame.LengthFormIsMinimal | src/server/api/ws_server.c:65-77 | No shorter length form decodes to the same length |
| WsFrameFormat.XorIsExclusiveOr | src/server/api/ws_server.c:279-281 | A bit of the unmasked byte is one if and only if the bits of the received byte and the key byte differ |
| WsFrameFormat.PayloadIs | src/server/api/ws_server.c:279-281 | Byte j of a payload is the received byte exclusive or byte j mod 4 of the four key bytes in front |
| WsFrameFormat.ReaderAcceptsExactly | src/server/api/ws_server.c:200-291 | Of any bytes at all: this text is returned and what is behind this byte left if and only if a text frame and its continuations, masked, the last one final, with lengths in any of the three forms, big-endian, say that text, within the limit, and end there |
| WsFrameFormat.ServerHeaderIs | src/server/api/ws_server.c:58-86 | The server's frame is 0x81, the length in seven bits, or 126 and two bytes, or 127 and eight, the most significant first, and the payload |
| WsFrameIo.BuildWsFrame | src/server/api/ws_server.c:58-86 | The header buffer, filled byte by byte, and the payload make that frame |
| WsFrameIo.ReadWsTextFrame | src/server/api/ws_server.c:200-291 | The reading loop with all its early exits returns what the message theorems are about |
| WsFrameIo.Unmask | src/server/api/ws_server.c:279-281 | The in-place loop undoes the mask |
| Pacing.DeadlineStaysNear | src/server/engine/compositor_thread.c:971-1012 | After every pass the deadline is at most one interval behind the last clock reading, and one interval and a millisecond ahead |
| Pacing.RepeatsStayBehind | src/server/engine/compositor_thread.c:986-1000 | Late repeats never take the deadline past the reading that showed the lateness |
| Pacing.FramesKeepUp | src/server/engine/compositor_thread.c:971-1012 | Between resyncs at least one frame is counted per interval, exactly one if and only if no event found the queue full in late repeats |
| Pacing.RateIsKept | src/server/engine/compositor_thread.c:971-1012 | Between resyncs at least as many frames are counted as intervals have gone by, less one; without refused events no more than one ahead of the time gone by and a millisecond |
| Pacing.PassInTime | src/server/engine/compositor_thread.c:971-983 | A pass that ends no more than an interval late moves the deadline on by one interval; with more than a millisecond left the loop sleeps to within a microsecond of it, otherwise not at all |
| Pacing.LatePass | src/server/engine/compositor_thread.c:984-1012 | A later one publishes repeats until the missed intervals or the limit are made up for or one fails; the deadline starts over if and only if, one interval and one for each repeat later, it is still more than an interval behind the second reading, and otherwise has moved on by exactly those |
| PacingLoop.Timespec.AddNs | src/server/engine/compositor_thread.c:442-455 | The addition is exact and leaves the timespec normalised, for every amount of either sign |
| PacingLoop.RenderLoop.PublishLateRepeats | src/server/engine/compositor_thread.c:512-533 | The loop counts the repeats published, and one more if its event was refused |
| PacingLoop.RenderLoop.EndOfPass | src/server/engine/compositor_thread.c:971-1012 | One frame and one interval a pass; repeats when more than an interval late; a fresh start when still that late after them |
| Ge2dClip.ClipIsIntersection | src/server/engine/compositor_ge2d.c:169-198 | What is drawn is the part of the destination on the canvas, drawn if and only if there is one, from within the source |
| Ge2dClip.NeverDividesByZero | src/server/engine/compositor_ge2d.c:185-196 | No division by zero at the right and lower edges |
| Ge2dClip.LowTrimIsProportional | src/server/engine/compositor_ge2d.c:169-184 | At the left and upper edges the source is trimmed by the clipped fraction, rounded down to a pixel |
| Ge2dClip.HighTrimIsProportionalIff | src/server/engine/compositor_ge2d.c:185-196 | At the right and lower edges, also behind a cut at the other edge, the source is trimmed by the clipped fraction to within a pixel if and only if dividing by the length plus the overrun gives the same quotient as dividing by the length |
| Ge2dClip.HighTrimGuards | src/server/engine/compositor_ge2d.c:185-196 | It does if overrun times extent is below the length, and does not once overrun squared times extent reaches length times (length + overrun) |
| Ge2dClip.HalfOverTrimsAThird | src/server/engine/compositor_ge2d.c:185-190 | An item half over the edge loses a third of its source |
| Ge2dClip.ClipItem | src/server/engine/compositor_ge2d.c:156-198 | Field by field, the item drawn is within the canvas and its source within the cropped one |

## Left out

- JsonRoundTrip.RoundTrip: numbers are integers of magnitude up to 2^53; other numbers are kept as their tokens on parsing and not printed, and strtod's hexadecimal, infinity and NaN forms are not modelled. Strings hold no NUL.
- JSON trees are values: the linking of children in place, and running out of memory, are not modelled; sizes do not overflow.
- SpscQueue.CountReports: the mask of count is written as a remainder; `MaskWraps` ties masking to wrapping on machine words for push and pop. Memory is sequentially consistent.
- SourceWorkerSafety.NotBackBeforeItsAck: only while the context stays open; closing it hands back every leased frame, acknowledged or not.
- SourceWorkerMeaning.RecoveryAndRestartIff: the floating-point verdict on the frame rate is an input; durations and gaps are not counted. Timers other than the recovery timer, and a timer left behind by a broken pipe, are not modelled.
- LeaseEndToEnd.LentWhilePending: a lease of a device context that was closed is handed back with it, whatever the compositor holds.
- LeaseProtocol.LeasesAreAccountedFor: acknowledgements can be lost, as the result of sending one is ignored, so a lease need not come back before its context is closed. The process between worker and server passes every message on or loses it.
- FrameSlot.Ring.Exchange: the mutex is not modelled; each operation is one step. `acquire`, which peeks without taking, is left out.
- PendingReleases.EveryFrameOnce: the Vulkan import cache answers arbitrarily whether an import is in use; the selection of scene items is left out.
- OutputRouterSafety.EveryLeaseInOnePlace: every acquired lease is valid; messages, statistics and the duplicate-content gate are left out. Threads that were never started are not modelled.
- DirectVencErrors.OwnFrameIffNoErrorBetween: a submission that would have the queue cut at 4096 is not followed.
- JsonRfc8259.ScannerAgreesWithRfc: a surrogate without its partner, on which the RFC says nothing, is encoded by itself in at most four bytes.
- DirectVencSafety.IdsIncrease: ids do not overflow a 32-bit int (over a year at 60 frames a second).
- DirectVencDts.DtsAdvances: a time past 2^64 nanoseconds wraps around, as in the code.
- ExportDestSafety.RefsCountTargets: submission, retiring and release are atomic to each other; ExportDestRaces says for one slot what their overlaps do. Teardown of a destination and the zero-copy alias are left out.
- ExportDestRaces.CountAccounts: one slot, and one thread that submits, polls, acquires and releases; a poll's and an acquire's load and store of the state are one step. The 32-bit counter is read as a distance from zero, as it is only compared with zero. Memory is sequentially consistent.
- WsFrame.MessageIsRead: a socket is a byte sequence that ends; the handshake is left out. The text is returned as bytes, with the terminating NUL left off.
- Pacing.DeadlineStaysNear: the clock does not go back and sleeping is not cut short; passes given up while waiting for a fence move nothing.
- Ge2dClip.ClipItem: rectangles do not overflow 32 bits, and the crop, computed in floating point, is an input.
- Vulkan, the blitter, DMA-BUF allocation, GStreamer, the codec, audio, sockets, processes, the JSON-RPC methods, configuration and storage are left out; where a protocol needs their results these are inputs.
