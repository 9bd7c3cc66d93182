# Verified model of ApertureC's frame pipeline, graphics geometry and transports

ApertureC is a remote-display system.  The server cuts each display into decoder areas, finds what
changed, encodes it as numbered fragments of numbered frames and sends them over an unordered
transport; the client puts the fragments back together and paints them.  This project models the
parts where that is hard to get right and proves what they promise, for every input and every run.

* **Frame reassembly and painting.**  `DecoderFrames` is the state of one decoder in one frame,
  `Framing` what a display's framer computes on its three frame collections and its draw queue.
  `FramingInvariants` proves what every step keeps for arbitrary messages, well formed or not, and
  any placement of drains; `FramingTheorems`, `FramingOrder`, `FramingRelease`, `FramingOverlaps` and
  `FramingCompletion` what follows over whole runs: what is guaranteed, in which order fragments
  leave, when a frame is held back, when the collections overlap and when a frame becomes complete.
  `DisplayFramers` is the mutable framer with its loops, proved to compute those functions, and
  `Painting` the image whose pixels remember the frame responsible for them.  `Pipeline` and
  `ClientDisplays` join the two, told on the fragments sent: whatever the delivery order, each pixel
  shows the newest frame that covers it.  `MediaRuns` and `MediaLoop` are the framer of a whole display configuration
  and the media channel's main loop, and `Windows` is the way of a draw from the screen to a window.
* **Rectangles.**  `BoxSets` (sets of disjoint boxes), `PixelCompare` (chunked comparison),
  `RectangleCovers` (a disjoint cover of the difference of two images) and `Partitions` (dividing
  displays into decoder areas).
* **Transports.**  `InOrder` is length-delimited framing over arbitrary chunks; its delimiter is
  the varint of the "Base 128 Varints" section of the Protocol Buffers Encoding specification.
  `Datagrams` is one stream for each message, received in any order.
* **Concurrent state machines.**  `Sessions` is the server's supervision loop, `Tunnels` the
  client's table of tunnelled TCP streams, and `TunnelWriters` the thread that writes one of them
  to its socket, interleaved with the table's.

Objects that the source updates in place are classes, each method proved against a function or a
predicate on values; the theorems are about those functions.

`dafny verify dfyconfig.toml` verifies the project.

## Where the code departs from what it is meant to do

* Completion of a frame is looked at only when a terminal arrives
  (aperturec-client/src/frame.rs:601-603).  A frame all of whose messages have arrived can stay
  undrawn: `FramingRelease.LateFragmentIsHeld` is the smallest case, and `FramingRelease.HeldIff`
  says exactly when it happens.
* Gap filling (aperturec-client/src/frame.rs:588-594) puts frames back in flight that are already
  complete or early drawn, so the three collections are not disjoint.
  `FramingOverlaps.InFlightOverlaps` and `FramingOverlaps.EarlyOverlapsComplete` are runs of four
  fragments that show every kind of overlap; `FramingOverlaps.PlaceDisjointIff`,
  `FramingOverlaps.StepDisjointIff` and `FramingOverlaps.OverlapIff` say exactly when one arises.
  The invariant that does hold is `FramingOverlaps.OverlapsAreFresh`: such an entry is as good as new.
* When such an entry is forced out again (aperturec-client/src/frame.rs:670-680), it replaces what was
  recorded for an early-drawn frame, and what had arrived by then no longer counts.  A frame whose
  fragments have all arrived once, terminal last, may so never become complete
  (`FramingCompletion.DeliveredButNotComplete`).  `FramingCompletion.CompleteIff` says exactly when a
  frame becomes complete, and `FramingCompletion.LostForGood` that such a loss is final.  Nothing is
  lost on screen: the fragments were drawn.
* The comment on the layout score (aperturec-graphics/src/partition.rs:69) says that layouts
  without unused cells are favoured.  For 17 decoders the score chooses three rows of six and
  leaves a cell (`Partitions.SeventeenLeavesACell`), and so the last pixel of every display, uncovered
  (`Partitions.SeventeenLeavesPixels`); `Partitions.TilesIffNoUnusedCell` says exactly when the whole
  display is covered.
* `AsyncDuplex::split` (aperturec-channel/src/codec/in_order.rs:623-631) drops whatever is in the
  receive buffer, while `Duplex::split` keeps it.  `InOrder.SplitAsyncDuplex` says when that is
  harmless, and `InOrder.AsyncSplitLosesBufferedMessage` splits one channel both ways: one half
  receives the buffered message, the other never does.

## Model

| member | source | states |
|---|---|---|
| DecoderFrames.MarkSequenceSound | aperturec-client/src/frame.rs:331-365 | Marking a sequence keeps the state truthful about what was accepted: nothing counted as received or no longer missing without having arrived, and `Complete` only when some terminal t and all of 0..=t arrived |
| DecoderFrames.MarkSequenceExact | aperturec-client/src/frame.rs:331-365 | For a sender of 0..=last with only `last` terminal, every new arrival is accepted and the state is a function of the set of arrivals alone |
| DecoderFrames.WellFormedDecoderRun | aperturec-client/src/frame.rs:331-365 | Every duplicate-free delivery order of such a sender is accepted, and the state is `Complete` exactly when all of 0..=last have arrived |
| DecoderFrames.AcceptedRun | aperturec-client/src/frame.rs:331-365 | What any accepted run must have been: no repetition up to its terminal, at most one terminal, and exactly the unarrived sequences missing, although repetitions after the terminal are accepted |
| DecoderFrames.KindOfRun | aperturec-client/src/frame.rs:331-365 | An accepted run is in flight exactly if it has no terminal, and complete exactly if its terminal made one range from zero or, later, everything up to the terminal has arrived |
| DecoderFrames.NextAccepted | aperturec-client/src/frame.rs:331-365 | Exactly which arrival an accepted run accepts next: before the terminal, any sequence that has not arrived; after it, any non-terminal until the decoder is done |
| DecoderFrames.EmptyTerminalAcceptedIff | aperturec-client/src/frame.rs:367-379 | An empty terminal is accepted only when nothing has arrived, and completes the state |
| FramingInvariants.PlaceKeeps | aperturec-client/src/frame.rs:557-635 | Recording a fragment or an empty terminal, gap filling included, keeps every invariant with the message added to the history; a refused message leaves the history alone |
| FramingInvariants.SettleKeeps | aperturec-client/src/frame.rs:637-697 | Settling a frame on its terminal, with the forced release of older frames that may overwrite early-draw entries, keeps every invariant |
| FramingInvariants.ReportIsPlaceThenSettle | aperturec-client/src/frame.rs:557-697 | From any reachable state the terminal check neither fails nor reaches `unreachable!` |
| FramingInvariants.StepKeeps | aperturec-client/src/frame.rs:557-707 | One delivered message or drain keeps all five invariants |
| FramingInvariants.ReachableInv | aperturec-client/src/frame.rs:536-712 | Every state of every run satisfies them: shapes, freshness of overlapping entries, soundness, conservation, and a larger complete frame behind every early draw |
| FramingTheorems.CompletionIsSound | aperturec-client/src/frame.rs:637-697 | A frame in `complete` has, on each decoder, an accepted empty terminal, or an accepted terminal t and accepted fragments 0..=t |
| FramingTheorems.CompleteFrameIsFinal | aperturec-client/src/frame.rs:557-697 | Once a frame is complete it stays so, and no fragment of it is queued again in any continuation, even if gap filling puts it back in flight |
| FramingTheorems.Conservation | aperturec-client/src/frame.rs:397-707 | Over every run each fragment is accepted as often as it was drawn, is queued and is held in flight together |
| FramingTheorems.FlushBarrier | aperturec-client/src/frame.rs:657-687 | Right after frame g completes out of `in_flight`, only larger frames are in flight and every accepted fragment of a frame up to g has been queued or drawn |
| FramingTheorems.EarlyDrawIsBehind | aperturec-client/src/frame.rs:667-686 | An early-drawn frame always has a larger complete frame |
| FramingTheorems.NeverUnreachable | aperturec-client/src/frame.rs:608-697 | In every reachable state, for every message, the outcome is success exactly when the message can be recorded; `unreachable!` is never met |
| FramingTheorems.NotAdmitted | aperturec-client/src/frame.rs:557-620 | A message for an unknown decoder or a complete frame, or one that does not decode, is refused without a trace |
| FramingTheorems.EntriesAfter | aperturec-client/src/frame.rs:588-635 | Recording creates an entry for the message's frame and, for fragments only, for the frames skipped; no other entry is touched |
| FramingTheorems.RefusedTouchesNothing | aperturec-client/src/frame.rs:557-697 | A refused message leaves queue, early-drawn and complete frames and all entries as they were |
| FramingTheorems.GapsAreFilled | aperturec-client/src/frame.rs:588-594 | A fragment ahead of everything in flight puts each frame it skips in flight, as new |
| FramingTheorems.CompletionReleasesOlder | aperturec-client/src/frame.rs:667-686 | When a frame completes out of `in_flight`, every older frame in flight becomes early drawn or complete |
| FramingTheorems.EarlyDrawIsImmediate | aperturec-client/src/frame.rs:452-494 | An accepted fragment of an early-drawn frame is queued at once |
| FramingTheorems.WellFormedAccepted | aperturec-client/src/frame.rs:557-635 | Every exactly-once interleaving of a well-formed sender's messages, across frames and decoders and with drains anywhere, is accepted without error |
| FramingRelease.RunIsExact | aperturec-client/src/frame.rs:331-379 | Over such runs the decoder states of a frame neither early drawn nor complete are those determined by what has arrived (`FramingCompletion.EarlyIsExact` has the early-drawn ones) |
| FramingRelease.TerminalLastIsNotHeld | aperturec-client/src/frame.rs:601-603 | A fully delivered frame whose last arrival is a terminal is not held back |
| FramingRelease.CompletesIff | aperturec-client/src/frame.rs:601-603 | A message completes its frame out of `in_flight` if and only if it is a terminal and the last of the frame's messages |
| FramingRelease.HeldIff | aperturec-client/src/frame.rs:557-697 | Any fully delivered frame is held back if and only if its last arrival was not a terminal and it was never overtaken: no terminal arrived as the last message of a newer frame, not early drawn, while this one was, or was just being put, in flight |
| FramingRelease.NewestFrameHeldIff | aperturec-client/src/frame.rs:601-603 | For the newest frame: held back if and only if its last arrival was not a terminal |
| FramingRelease.LateFragmentIsHeld | aperturec-client/src/frame.rs:601-603 | Two fragments of one frame, terminal first: both accepted, none drawn or queued |
| FramingOrder.SentIsCarried | aperturec-client/src/frame.rs:397-407 | What is sent is what the messages carry: frame, decoder, sequence, terminal flag, origin and pixels |
| FramingOrder.OrderedConservation | aperturec-client/src/frame.rs:397-707 | Over every run and for each frame: drawn, queued and held fragments are together exactly the accepted ones, in the order of acceptance |
| FramingOrder.ReleaseOrder | aperturec-client/src/frame.rs:657-687 | A completion queues the completed frame's fragments first and then those of older frames, oldest frame first |
| FramingOverlaps.OverlapsAreFresh | aperturec-client/src/frame.rs:588-594 | Over every run, a frame in flight that is also early drawn or complete holds no fragment and only fresh states, and one both early drawn and complete has only fresh states |
| FramingOverlaps.PlaceDisjointIff | aperturec-client/src/frame.rs:588-594 | Recording a message keeps disjoint collections disjoint if and only if gap filling for it skips no frame that is early drawn or complete |
| FramingOverlaps.StepDisjointIff | aperturec-client/src/frame.rs:588-686 | The same of a whole event, settling included: a skipped complete frame always breaks disjointness, a skipped early-drawn one unless the message completes its own frame at once and so writes the entry anew |
| FramingOverlaps.OverlapIff | aperturec-client/src/frame.rs:557-707 | Over every run, some state has a frame in two collections if and only if some message arrived when it breaks disjointness |
| FramingOverlaps.InFlightOverlaps | aperturec-client/src/frame.rs:588-594 | A run of four fragments after which one frame is in flight and early drawn and another in flight and complete |
| FramingOverlaps.EarlyOverlapsComplete | aperturec-client/src/frame.rs:667-686 | A run of four fragments after which one frame is early drawn and complete, and the record of another early-drawn one has been replaced by a fresh one |
| FramingCompletion.EarlyIsExact | aperturec-client/src/frame.rs:452-494 | Over well-formed runs, the states of an early-drawn frame are those determined by what has arrived since its entry was last written anew |
| FramingCompletion.CompleteIff | aperturec-client/src/frame.rs:557-697 | Over well-formed runs, a frame is complete if and only if a terminal of it arrived as the last message still missing from what counts, or it was overtaken in flight with nothing missing |
| FramingCompletion.TerminalLastCompletes | aperturec-client/src/frame.rs:637-697 | A frame of which everything counts, a terminal last, is complete |
| FramingCompletion.LostForGood | aperturec-client/src/frame.rs:670-680 | Once a message of a frame no longer counts, the frame never becomes complete, whatever arrives later |
| FramingCompletion.DeliveredButNotComplete | aperturec-client/src/frame.rs:670-680 | Both fragments of a frame accepted, the terminal last, and the frame stays early drawn, waiting for the first one again |
| Pipeline.DrawIsFragment | aperturec-client/src/frame.rs:699-707 | A draw has its fragment's frame, covers the fragment's place within the decoder's area, and has its colours, opaque |
| Pipeline.PaintShowsLast | aperturec-client-gtk4/src/image.rs:83-103 | A pixel shows the last fragment of the newest frame that covers it |
| Pipeline.SameFramesSamePicture | aperturec-client-gtk4/src/image.rs:83-103 | Painting depends only on the order of fragments within each frame |
| Pipeline.PaintedIsSent | aperturec-client/src/frame.rs:557-707 | With nothing held back, the multiset painted is the multiset sent |
| Pipeline.ImageIsByArrival | aperturec-client/src/frame.rs:557-707 | End to end, for any messages: with nothing held back the display shows what it would show had every accepted fragment been painted on arrival |
| Pipeline.ImageShowsNewest | aperturec-client/src/frame.rs:557-707 | End to end, told on the fragments: if fragments of one frame are disjoint on screen, every exactly-once delivery order that leaves nothing held back shows at each pixel the fragment of the newest frame that covers it, with that frame responsible, or what was there before |
| Pipeline.ImageIsFrameByFrame | aperturec-client/src/frame.rs:557-707 | So each pixel is as if the fragments had been painted in increasing frame order |
| Pipeline.DeliveryOrderIrrelevant | aperturec-client/src/frame.rs:557-707 | Two such deliveries of the same messages paint the same image |
| Pipeline.TerminalLastHoldsNothing | aperturec-client/src/frame.rs:557-697 | Nothing is held back when all planned frames are fully delivered, each with a terminal last |
| Painting.NewestFrameWins | aperturec-client-gtk4/src/image.rs:83-103 | After any draws, an uncovered pixel is untouched and any other shows the last draw among those of the largest covering frame, which is its responsible frame |
| Painting.OrderIrrelevant | aperturec-client-gtk4/src/image.rs:83-103 | If draws of one frame are disjoint, any two sequences of the same draws give the same pixel |
| Painting.Image.constructor | aperturec-client-gtk4/src/image.rs:44-55 | A new image has one colour and no responsible frame |
| Painting.Image.Draw | aperturec-client-gtk4/src/image.rs:83-103 | The in-place loops change exactly the covered pixels whose responsible frame is not newer |
| Painting.Image.Paint | aperturec-client-gtk4/src/image.rs:83-103 | Painting a sequence of draws in order is the pixel-wise specification |
| DisplayFramers.MaxKey | aperturec-client/src/frame.rs:588-594 | The largest frame in flight |
| DisplayFramers.DisplayFramer.constructor | aperturec-client/src/frame.rs:536-556 | A new framer is empty and valid |
| DisplayFramers.DisplayFramer.FillGapsBelow | aperturec-client/src/frame.rs:588-594 | The loop creates exactly the missing frames above the largest one in flight and below the given one |
| DisplayFramers.DisplayFramer.RecordFragment | aperturec-client/src/frame.rs:566-600 | The object's whole new state is what the specification gives, for accepted and refused fragments |
| DisplayFramers.DisplayFramer.RecordEmpty | aperturec-client/src/frame.rs:608-635 | The same for empty terminals, which fill no gaps |
| DisplayFramers.DisplayFramer.ReportFragment | aperturec-client/src/frame.rs:557-606 | Any fragment at all moves the object along its run, so every theorem about runs applies to it; never `unreachable!` |
| DisplayFramers.DisplayFramer.ReportEmptyTerminal | aperturec-client/src/frame.rs:608-635 | The same for empty terminals |
| DisplayFramers.DisplayFramer.ReportTerminal | aperturec-client/src/frame.rs:637-697 | The whole new state of the terminal check |
| DisplayFramers.DisplayFramer.ForceOutBelow | aperturec-client/src/frame.rs:667-686 | The forcing loop releases exactly the frames below the completed one, in increasing order |
| DisplayFramers.DisplayFramer.GetDrawsAndReset | aperturec-client/src/frame.rs:699-707 | Hands out the queue and empties it; each draw has its fragment's frame and pixels, at the fragment's origin moved by that of its decoder's area |
| DisplayFramers.DisplayFramer.HasDraws | aperturec-client/src/frame.rs:709-711 | Whether the queue is not empty |
| MediaRuns.ReplacedOnlyWhenDrained | aperturec-client/src/channels/media.rs:81-104 | The configuration id never decreases, and a framer is replaced only by one of a larger id while none of its displays has anything queued |
| MediaRuns.ConfigNeverDecreases | aperturec-client/src/channels/media.rs:81-122 | The same over whole runs |
| MediaRuns.ConfigInForce | aperturec-client/src/channels/media.rs:81-104 | After any run, the configuration in force is the first of the largest id among the first one and all that arrived, and each of its displays has received exactly the messages addressed to it since, in order |
| MediaRuns.OnlyItsDisplay | aperturec-client/src/frame.rs:758-806 | A message for another configuration changes nothing; one for the configuration in force reaches only the display it names |
| MediaRuns.TurnHandsOutQueued | aperturec-client/src/channels/media.rs:82-87 | Every turn first hands out everything queued, and nothing else |
| MediaRuns.HandedOutIsDrawn | aperturec-client/src/channels/media.rs:81-122 | What has been handed out for a display of the configuration in force is what its framer drew, in that order |
| MediaRuns.DisplaysInOrder | aperturec-client/src/frame.rs:808-817 | The displays are drained in their order |
| MediaRuns.EmittedCameFrom | aperturec-client/src/channels/media.rs:81-122 | Every draw ever handed out is a fragment that arrived for that display and the configuration then in force |
| MediaRuns.LoopConservation | aperturec-client/src/channels/media.rs:81-122 | Over every run of the loop each fragment accepted for the configuration in force is handed out, queued or held, counted once |
| MediaLoop.ScreenDrawPlaces | aperturec-client/src/frame.rs:808-817 | A screen draw has its fragment's frame, and each pixel of the fragment appears, with its colour and opaque, at its place in the decoder area, in the display, on the screen, and nowhere else |
| MediaLoop.Framer.constructor | aperturec-client/src/frame.rs:714-742 | One fresh framer for each display |
| MediaLoop.Framer.ReportMessage | aperturec-client/src/frame.rs:744-806 | Routing: older configurations are ignored, newer ones, unknown displays and malformed fragments are errors, anything else has the outcome of its display |
| MediaLoop.Framer.HasDraws | aperturec-client/src/frame.rs:819-821 | Whether any display has something queued |
| MediaLoop.Framer.DrainDisplay | aperturec-client/src/frame.rs:808-817 | One display's queue in screen coordinates |
| MediaLoop.Framer.DrainNext | aperturec-client/src/frame.rs:808-817 | Drains one display and leaves the others alone |
| MediaLoop.Framer.GetDrawsAndReset | aperturec-client/src/frame.rs:808-817 | Hands out every display's queue in order and empties it |
| MediaLoop.Framer.DrainBeforeReceive | aperturec-client/src/channels/media.rs:82-87 | The drain at the head of each turn |
| MediaLoop.ServeMedia | aperturec-client/src/channels/media.rs:81-122 | The loop, which replaces its framer object, hands out exactly what the abstract run does, and sends on the draw of each emission in the screen coordinates of the configuration in force |
| Windows.ContainsIsPixel | aperturec-client-gtk4/src/main.rs:817-835 | The points of a window's area are the pixels of its image |
| Windows.WindowAtIsFirst | aperturec-client-gtk4/src/main.rs:817-835 | The first window whose area contains the point, if any |
| Windows.ScreenDrawComesHome | aperturec-client-gtk4/src/main.rs:643-652 | When each display has a window of its own area, every visible fragment reaches its display's window at its place within the display |
| Windows.DrawInWindow | aperturec-client-gtk4/src/main.rs:643-652 | Paints the draw in the window it belongs to, relative to that window, and in no other |
| ClientDisplays.Show | aperturec-client-gtk4/src/image.rs:83-103 | A framer object and an image object together: the image is the initial one with the handed-out fragments painted in that order |
| ClientDisplays.ShowAll | aperturec-client-gtk4/src/image.rs:83-103 | End to end on the mutable image, for any messages: with nothing held back it is as if every accepted fragment had been painted on arrival |
| ClientDisplays.ShowWellFormed | aperturec-client-gtk4/src/image.rs:83-103 | End to end on the mutable image, for a well-formed sender: each pixel shows the fragment of the newest frame that covers it |
| BoxSets.ContainsBoxMeaning | aperturec-graphics/src/boxset.rs:66-85 | Containment of boxes is containment of their points, empty boxes included |
| BoxSets.IntersectionMeaning | aperturec-graphics/src/boxset.rs:90-92 | There is an intersection exactly if there is a common point, and it holds the common points |
| BoxSets.CutMeaning | aperturec-graphics/src/boxset.rs:86-131 | The pieces kept of a box are disjoint and cover exactly its points outside the other box |
| BoxSets.SamePiece | aperturec-graphics/src/boxset.rs:93-131 | Two points outside the intersection are in one piece exactly if its edges separate them in neither direction |
| BoxSets.AddBoxMeaning | aperturec-graphics/src/boxset.rs:66-139 | Adding keeps boxes disjoint and adds exactly the new box's points |
| BoxSets.AddBoxCases | aperturec-graphics/src/boxset.rs:66-139 | In terms of points: a box inside an existing one changes nothing, one that contains all replaces them, any other leaves the existing ones and puts non-empty boxes behind them |
| BoxSets.DisjointAreKept | aperturec-graphics/src/boxset.rs:187-193 | Non-empty boxes that are disjoint anyway are collected as they are |
| BoxSets.AddAllMeaning | aperturec-graphics/src/boxset.rs:145-152 | The same for every sequence of additions |
| BoxSets.InsertionOrderIrrelevant | aperturec-graphics/src/boxset.rs:187-193 | Any permutation of the additions covers the same points |
| BoxSets.AddAllOnGrid | aperturec-graphics/src/boxset.rs:66-139 | Additions create no coordinate that no added box has |
| BoxSets.AreaIsUnionSize | aperturec-graphics/src/boxset.rs:66-139 | The total area of the set is the number of distinct points of the added boxes |
| BoxSets.BoxSet.Add | aperturec-graphics/src/boxset.rs:66-139 | The nested loops over work stacks compute the specification, keep disjointness and add the points |
| BoxSets.BoxSet.CutEveryPiece | aperturec-graphics/src/boxset.rs:90-132 | Emptying the stack cuts every piece, last first |
| BoxSets.BoxSet.OutsideOfAll | aperturec-graphics/src/boxset.rs:86-136 | The outer loop cuts the new box by every existing one |
| BoxSets.BoxSet.OutsideOf | aperturec-graphics/src/boxset.rs:91-131 | The eight regions around the intersection that are not empty, or the box itself |
| BoxSets.BoxSet.Union | aperturec-graphics/src/boxset.rs:145-152 | A fresh set with every other box added; the original is unchanged |
| BoxSets.BoxSet.FromIter | aperturec-graphics/src/boxset.rs:187-193 | Collecting boxes adds them in order to an empty set |
| PixelCompare.ChunksDetermineRow | aperturec-graphics/src/pixel.rs:90-102 | Two rows of one length are equal exactly when their chunks and remainders are |
| PixelCompare.RowSimdEq | aperturec-graphics/src/pixel.rs:129-139 | The chunked fast path decides equality of rows |
| PixelCompare.SimdEq | aperturec-graphics/src/pixel.rs:117-147 | Whichever rows take the fast path, the result is equality of shape and of every pixel |
| RectangleCovers.SampledDiffImage | aperturec-graphics/src/rectangle_cover.rs:9-31 | A sample is 0 if its tile, clamped to the image, is equal in both images and 255 if not |
| RectangleCovers.TileDiffersIff | aperturec-graphics/src/rectangle_cover.rs:17-26 | A tile differs exactly if a pixel of it does |
| RectangleCovers.IdentifyBounds1d | aperturec-graphics/src/rectangle_cover.rs:61-76 | Exactly the non-zero labels of a line, each with its least interval |
| RectangleCovers.MergeAxisBounds | aperturec-graphics/src/rectangle_cover.rs:40-59 | The union of the maps with hulls on common labels, whichever map is empty |
| RectangleCovers.IdentifyAxisBounds | aperturec-graphics/src/rectangle_cover.rs:78-83 | Exactly the non-zero labels of all lines, each with its least interval |
| RectangleCovers.SameRegions | aperturec-graphics/src/rectangle_cover.rs:85-95 | Both axes find the same labels, so both assertions hold |
| RectangleCovers.IntervalsMakeLeastBox | aperturec-graphics/src/rectangle_cover.rs:91-101 | The two least intervals make the least box of the region |
| RectangleCovers.RegionBounds | aperturec-graphics/src/rectangle_cover.rs:39-102 | For any labelling, exactly the non-zero labels, each with the least box that holds its cells |
| RectangleCovers.ScaledIsCover | aperturec-graphics/src/rectangle_cover.rs:125-136 | The set collected from the scaled boxes is disjoint, inside the image, covers every difference, is empty iff the images are equal, and has grid or edge coordinates only |
| RectangleCovers.ScaledCoversSpans | aperturec-graphics/src/rectangle_cover.rs:125-136 | Exactly the pixels are covered whose tile lies, in columns and in rows, between cells of one region |
| RectangleCovers.SpannedByDifference | aperturec-graphics/src/rectangle_cover.rs:123-136 | Each covered tile shares its region with a tile that differs |
| RectangleCovers.DiffRectangleCover | aperturec-graphics/src/rectangle_cover.rs:104-137 | The whole function, for images of any equal size and any labelling that marks the background with 0: a disjoint cover of the differences inside the image, empty iff they are equal; for thin images nothing but the whole image, for others exactly the tiles spanned by a region |
| Partitions.ChooseLayout | aperturec-graphics/src/partition.rs:74-104 | The first layout of least score |
| Partitions.BestLayoutIsMinimal | aperturec-graphics/src/partition.rs:67-104 | The layout chosen minimises 10 * (rows * cols - n) + |rows - cols| over all numbers of rows with the columns they need, the fewest rows winning ties |
| Partitions.Partition | aperturec-graphics/src/partition.rs:74-128 | Exactly n boxes: the first n cells, in reading order, of a layout of least score |
| Partitions.EdgeIsShare | aperturec-graphics/src/partition.rs:109-119 | Each edge is its exact share of the side, rounded down |
| Partitions.CellsAreEven | aperturec-graphics/src/partition.rs:109-121 | The widths of cells differ by at most one, and so do their heights |
| Partitions.CellOf | aperturec-graphics/src/partition.rs:109-121 | Every pixel lies in a cell of the grid |
| Partitions.CellIsUnique | aperturec-graphics/src/partition.rs:109-121 | and in no other |
| Partitions.CoveredExactly | aperturec-graphics/src/partition.rs:109-127 | A pixel in cell (row, col) is covered exactly when row * cols + col < n |
| Partitions.CellsDisjoint | aperturec-graphics/src/partition.rs:109-127 | The boxes are disjoint |
| Partitions.CellsInside | aperturec-graphics/src/partition.rs:109-127 | The boxes lie inside the resolution |
| Partitions.NoUnusedCellTiles | aperturec-graphics/src/partition.rs:74-128 | Without unused cells the boxes tile the display exactly, with area width * height |
| Partitions.TilesIffNoUnusedCell | aperturec-graphics/src/partition.rs:67-128 | For every resolution, the whole display is covered if and only if the chosen layout has no unused cell or the display has no pixel |
| Partitions.SeventeenLeavesACell | aperturec-graphics/src/partition.rs:67-104 | For 17 the only layout of least score is 3 by 6 with a cell unused, although 1 by 17 has none |
| Partitions.SeventeenLeavesPixels | aperturec-graphics/src/partition.rs:67-128 | Every partition into 17 leaves pixels of the display uncovered, unless it has none |
| Partitions.PartitionDisplays | aperturec-graphics/src/partition.rs:21-58 | Which error when; otherwise the counts add up to the decoder limit, disabled displays get none, enabled ones an equal number and the first of them, as many as remain, one more, as cells of a best layout |
| InOrder.CapIs64Bits | aperturec-channel/src/codec/in_order.rs:57-65 | The ten-byte limit admits exactly the 64-bit lengths |
| InOrder.EncodingIsBase128 | aperturec-channel/src/codec/in_order.rs:57-65 | An encoded length is base 128, seven bits a byte, lowest first, with the high bit set on all bytes but the last, and no superfluous byte |
| InOrder.DecodingIsBase128 | aperturec-channel/src/codec/in_order.rs:87-88 | A length is decoded exactly if the bytes start with such a varint of at most ten bytes, the tenth 0 or 1, and to its value |
| InOrder.VarintRoundTrip | aperturec-channel/src/codec/in_order.rs:57-65 | Decoding an encoded 64-bit length, whatever follows it, gives it back |
| InOrder.VarintPrefixFails | aperturec-channel/src/codec/in_order.rs:87-101 | No proper prefix of an encoded length decodes, so growing the prefix byte by byte finds it |
| InOrder.FrameIsUnique | aperturec-channel/src/codec/in_order.rs:76-121 | A stream starts with at most one frame |
| InOrder.EncodedFrame | aperturec-channel/src/codec/in_order.rs:57-65 | An encoded message is found again at the head of any stream that starts with it, with its exact length |
| InOrder.Receiver.constructor | aperturec-channel/src/codec/in_order.rs:481-502 | A receiver starts with the given buffer |
| InOrder.Receiver.ReceiveChunk | aperturec-channel/src/codec/in_order.rs:93-96 | One call of the transport: a chunk goes to the end of the buffer; a timeout or failure changes no byte |
| InOrder.Receiver.ReceiveMore | aperturec-channel/src/codec/in_order.rs:93-112 | A call made when no whole frame is buffered |
| InOrder.Receiver.ReceiveDelimiter | aperturec-channel/src/codec/in_order.rs:85-101 | Finds the shortest delimiter at the head of the buffer, calling the transport only when there is none, or stops with no byte lost and no whole frame buffered |
| InOrder.Receiver.ReceiveInternal | aperturec-channel/src/codec/in_order.rs:76-121 | The transport is called only while no whole frame is buffered, and not again after a timeout; a message consumes exactly its frame, anything else consumes nothing; a timeout or failure means that no whole frame is buffered |
| InOrder.Receiver.ReceiveBuffered | aperturec-channel/src/codec/in_order.rs:76-121 | A whole frame that is buffered comes out at once, as its message or its decode error, without a call of the transport |
| InOrder.Receiver.ReceiveFromStream | aperturec-channel/src/codec/in_order.rs:76-121 | Told on the stream, buffered and to come: a message is that of the frame at its head, and no byte is lost |
| InOrder.Receiver.CleanUp | aperturec-channel/src/codec/in_order.rs:115-118 | Rotating, zeroing and truncating drops exactly the frame |
| InOrder.Receiver.Receive | aperturec-channel/src/codec/in_order.rs:141-152 | Without timeouts there is always a message or an error, so the unwrap is safe |
| InOrder.Receiver.ReceiveNext | aperturec-channel/src/codec/in_order.rs:123-139 | On an encoded list: the first message with its byte count, or a timeout that costs no byte and comes only when no whole message is buffered, or failure only when nothing is left |
| InOrder.Receiver.ReceiveAll | aperturec-channel/src/codec/in_order.rs:170-203 | For every message list, every split into non-empty chunks and every placement of timeouts, exactly that list comes out, in order, with the byte counts, and no byte is left over |
| InOrder.SplitDuplex | aperturec-channel/src/codec/in_order.rs:481-502 | The receive half continues the stream where it stood, mid-message or not |
| InOrder.SplitAsyncDuplex | aperturec-channel/src/codec/in_order.rs:623-631 | The receive half has an empty buffer and sees the stream without what was buffered: all of it if and only if nothing was |
| InOrder.AsyncSplitLosesBufferedMessage | aperturec-channel/src/codec/in_order.rs:623-631 | A channel with a whole message buffered, split both ways: the synchronous half receives the message, the asynchronous half the transport's failure |
| Datagrams.OutOfOrderTransport.constructor | aperturec-channel/src/transport/datagram.rs:89-97 | Starts with no stream |
| Datagrams.OutOfOrderTransport.Transmit | aperturec-channel/src/transport/datagram.rs:144-148 | One more stream, carrying the datagram, or nothing at all when opening fails |
| Datagrams.OutOfOrderTransport.Turn | aperturec-channel/src/transport/datagram.rs:107-133 | The whole new state for whatever the select takes, errors included; received, lost, in progress and unaccepted datagrams together stay exactly those transmitted |
| Datagrams.OutOfOrderTransport.TurnIfPossible | aperturec-channel/src/transport/datagram.rs:107-133 | A step that can happen is performed, any other changes nothing |
| Datagrams.OutOfOrderTransport.Receive | aperturec-channel/src/transport/mod.rs:121-142 | For every schedule, with the peer transmitting meanwhile, the result is that of the first step that has one and a timeout if none has; what is received is byte for byte a transmitted datagram not received before; nothing is lost but by an error |
| Datagrams.OutcomeIsFirst | aperturec-channel/src/transport/datagram.rs:107-133 | A schedule ends in a timeout exactly if no stream ends and nothing fails in its course, and otherwise with what the first such step brings |
| Datagrams.ResultMeans | aperturec-channel/src/transport/datagram.rs:107-133 | A datagram is all the bytes of a stream that has ended, and an error comes from a stream or the acceptor that failed |
| Datagrams.SomethingArrives | aperturec-channel/src/transport/datagram.rs:107-133 | Whatever is pending, some schedule receives a datagram |
| Datagrams.MovedConserves | aperturec-channel/src/transport/datagram.rs:107-148 | Every step: what is pending grows by what is transmitted and shrinks by what is handed out, byte for byte, or lost with a failed stream |
| Datagrams.TurnsProgress | aperturec-channel/src/transport/datagram.rs:107-133 | Every accept, chunk, end and failure of a stream lowers a measure of the bytes and streams left, so everything arrives once the peer stops |
| Datagrams.NeverStuck | aperturec-channel/src/transport/datagram.rs:107-133 | While anything is pending, some turn without an error is possible |
| Datagrams.AllReceived | aperturec-channel/src/transport/datagram.rs:107-133 | Only what was transmitted is received, and everything not lost has been received exactly when no stream is left |
| Sessions.OneGoodbye | aperturec-server/src/server.rs:867-915 | Over every run: the second event is the one cleanup; at most one goodbye, with the first cause, before the one cancellation of tokens; nothing sent or cancelled before or after |
| Sessions.GoodbyeByCause | aperturec-server/src/server.rs:871-933 | Which goodbye each first event leads to |
| Sessions.TaskErrorIsFirst | aperturec-server/src/server.rs:903-915 | A task's error is recorded exactly if that task was the first thing to end the session |
| Sessions.RunsExactly | aperturec-server/src/server.rs:867-937 | The runs of the loop are exactly: a first event, the cleanup, then ends of tasks and of the backend in any order |
| Sessions.StuckIffFinished | aperturec-server/src/server.rs:867-937 | No branch of the select is left exactly when cleanup is done, all tasks have ended and the backend's result is there, so the final `expect` holds |
| Sessions.EveryTurnProgresses | aperturec-server/src/server.rs:867-937 | Each turn lowers unfinished tasks plus pending backend plus pending cancellation and cleanup |
| Sessions.RunsAreShort | aperturec-server/src/server.rs:867-937 | A session has at most one turn for each task and three more |
| Sessions.EndsAreCounted | aperturec-server/src/server.rs:903-934 | Tasks left plus tasks finished are those started; the backend ends at most once and its result is kept |
| Sessions.FinishedMeansAllEnded | aperturec-server/src/server.rs:867-939 | The loop is left only after every task and the backend have ended |
| Sessions.Supervise | aperturec-server/src/server.rs:860-939 | The loop on its own variables is the run that the environment chooses, and ends |
| Tunnels.Beginnings | aperturec-client/src/channels/tunnel.rs:126-256 | How a stream comes into the table and what is sent then: an accepted open, silently, or a client-bound connection, announced; anything else leaves it out, and an open is refused with a close |
| Tunnels.StateByMoves | aperturec-client/src/channels/tunnel.rs:126-342 | Over every run of a life the closes, connections and thread ends alone decide the state, and after any but the listed ones the entry is gone: closed once is half closed, closed twice is fully closed |
| Tunnels.RepliesInLife | aperturec-client/src/channels/tunnel.rs:126-342 | What is sent while a stream is in the table: closes for repeated opens and failed connections and, once it is closed twice, for late data and thread ends |
| Tunnels.NeverGoesBack | aperturec-client/src/channels/tunnel.rs:126-342 | No event lowers the rank of an entry |
| Tunnels.FewChanges | aperturec-client/src/channels/tunnel.rs:126-342 | A living entry has changed state at most as often as its rank grew |
| Tunnels.LeavesAfterFourChanges | aperturec-client/src/channels/tunnel.rs:126-342 | An entry leaves the table after at most four state changes |
| Tunnels.WriterGetsAccepted | aperturec-client/src/channels/tunnel.rs:199-317 | Over an entry's life: the table hands its writer exactly the data accepted while opening and then open, in order, nothing after half-close, and nothing at all if it never opened |
| Tunnels.StreamsAreIndependent | aperturec-client/src/channels/tunnel.rs:126-342 | After any interleaving, an entry is where its own events alone would bring it |
| Tunnels.EntryHasALife | aperturec-client/src/channels/tunnel.rs:126-317 | Every entry goes back to one event that created it empty, and has been there since |
| Tunnels.TableHandsOverAccepted | aperturec-client/src/channels/tunnel.rs:126-342 | For every run of the whole table, each entry's writer was handed the data accepted since the entry was created |
| TunnelWriters.SocketGetsAccepted | aperturec-client/src/channels/tunnel.rs:279-305 | Over every interleaving of the table's thread and the writer, its channel and failed writes included: the socket has always taken a prefix of the data accepted, in order; all of it once the writer has ended; and a writer that has not failed holds exactly the rest |
| TunnelWriters.RunHolds | aperturec-client/src/channels/tunnel.rs:222-317 | A writer exists exactly if the stream was opened, its sender is held while the entry is open, and it ends only when that is gone |
| TunnelWriters.OnePieceWaits | aperturec-client/src/channels/tunnel.rs:283-300 | At most one piece waits in a writer's channel |
| TunnelWriters.HandlerNeverStuck | aperturec-client/src/channels/tunnel.rs:199-220 | With the channel empty, and once the writer has failed, the table's thread can handle any event of the stream |
| TunnelWriters.WriterNeverStuck | aperturec-client/src/channels/tunnel.rs:284-305 | A running writer can take a step unless it has written all it was given and its sender is still there |
| TunnelWriters.WriterProgresses | aperturec-client/src/channels/tunnel.rs:284-305 | Each step brings the writer closer to its end |
| Tunnels.StreamTable.HandleOpenFromServer | aperturec-client/src/channels/tunnel.rs:126-178 | Moves the entry as specified or refuses with a close; no other entry changes |
| Tunnels.StreamTable.HandleCloseFromServer | aperturec-client/src/channels/tunnel.rs:180-197 | One step towards closed; no other entry changes |
| Tunnels.StreamTable.HandleDataFromServer | aperturec-client/src/channels/tunnel.rs:199-220 | Queues or hands over the data, or drops it after the half close |
| Tunnels.StreamTable.HandleNewStreamEstablished | aperturec-client/src/channels/tunnel.rs:222-317 | Opens with the queued data first; a client-bound stream is announced to the server; any other entry for the stream is removed |
| Tunnels.StreamTable.HandleStreamResult | aperturec-client/src/channels/tunnel.rs:319-342 | One step towards closed when a reader or writer ends, or removal |

## Left out

- Codecs (raw, zlib, JPEG XL) and the reinterpretation of pixel buffers: a received fragment carries what its codec makes of it, possibly nothing.
- Integer widths: coordinates, frame, sequence and configuration numbers are unbounded naturals; overflow of `usize` and `u64` is not modelled.  The delimiter's 64-bit limit is.
- The order in which the range-set library stores ranges: range sets are finite sets, with the number of maximal runs where the code asks for it.
- PixelCompare.SimdEq: rows are laid out forwards in memory.  A view with a negative stride, which the comparison could read backwards, is not part of this model.
- MediaLoop.ServeMedia: termination and network errors leave the framer alone and are not events; which of two ready channels the select prefers is not modelled, any order of events is covered.
- ClientDisplays.ShowWellFormed: end to end for one display, in its own coordinates; that draws reach the display's window is `Windows`.
- ClientDisplays.Show: likewise.
- Windows.ScreenDrawComesHome: changing the window mode, and the windows with it, is not modelled.
- The connected-components algorithm: any labelling that marks the background, and only the background, with 0.
- RectangleCovers.DiffRectangleCover: the order in which region boxes are collected is left open, every order is covered.
- InOrder.Receiver.ReceiveInternal: chunks are not empty, as the transport delivers them; an empty one would make the code slice past its buffer.  Message contents are opaque, with a partial decoder; how the remaining time of a timeout is computed is not modelled.
- InOrder.Receiver.ReceiveAll: stands for the asynchronous receive too, which is the same algorithm without timeouts.
- Datagrams.OutOfOrderTransport.Receive: a step of the schedule that is not possible is skipped.
- Datagrams.OutOfOrderTransport.Transmit: a stream that fails while it is being written to is not modelled on the sender's side, only as a stream that fails at the receiver.
- Sessions.Supervise: tasks and the backend are seen only through their ends and are taken to end once cancelled; whether sending the goodbye succeeds, and the reset of the backend after the loop, are not modelled.
- Tunnels.WriterGetsAccepted: says what the table hands over, and counts data sent to a writer that has already failed; what reaches the socket is `TunnelWriters.SocketGetsAccepted`.
- Tunnels.TableHandsOverAccepted: likewise.
- TunnelWriters.SocketGetsAccepted: the reading thread, the sockets' own buffers and the table's main loop are not modelled.
- QUIC, TLS, endpoints, authentication, tokio and crossbeam: library wrappers and input/output.
- GTK windows, the C interface, argument and configuration parsing, logging, metrics: user interface and plumbing.
- The draw-debug feature of the image.
- The state-machine crate, protocol conversions, display extents and the continuity helper: they would add only easy members.
