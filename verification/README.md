# WayDisplay client: a verified model

WayDisplay streams a remote desktop to a client as small UDP tiles, as encoded video over TCP, and as Opus audio, and sends input
back over TCP. This project models the parts of the client where several mechanisms have to agree: tile reassembly, the repair
scheduler, the path from a completed tile to the framebuffer, the content-epoch fence between tiles and video, the asynchronous TCP
sender and the frame reader of its peer, the dirty tile grid, recovery keyframe validation, the compressed video queue, and the
audio timeline. Each is proved for all inputs and, where it keeps state, for every run.

Code that updates objects in place is modelled by classes whose methods are proved against values and invariants; the C++ and C
loops are loops here. Results of foreign code (the kernel, zstd, Opus, SDL) are arbitrary values, parameters, or a FIFO. Integers
are unbounded and every 16-, 32- or 64-bit limit that the code depends on is written out.

## Main results

- Reassembly (`TileReassembly`, `ArrivalLog`, `ReceiveRun`): over every run, whatever is lost, duplicated, reordered or interleaved,
  the receipts of a partial tile are exactly the fragments that arrived since the tile was opened, and a tile is delivered exactly on
  the datagram with which all its fragments have arrived, as the payload sent; every partial tile that is given up, and every whole
  tile that does not decompress, leaves its base tiles received or queued for repair; both memory budgets always hold. Each tile that
  was ever partial is partial still, received or queued for repair, brought out or replaced by a later datagram, or dropped by a
  reset; what was rendered, with what is still queued, shows the true payloads of the datagrams that queued their tiles, and the
  present queue never answers Superseded.
- Repair (`RepairPlan`, `RepairScheduler`, `RepairRun`): a summary and a promotion queue exactly the generations that are ripe, up to
  the throttles, and it is known for any summary exactly which announced and pending generations it loses. A promotion that is not
  throttled asks for exactly the tiles with a due record that has matured and stands behind no record that is due later, and with a
  flush these go on the wire in one pass. In every run in which announced generations do not decrease and a summary lists a tile once,
  each announced or lost generation is received, pending, queued, or requested after the event that owed it, at that generation or
  newer; in every run at all, requests for a tile that do not raise the generation are at least 250 ms apart.
- Presentation (`TilePresent`, `TileImage`): a frame of the renderer, which drains the queue and paints what came out, shows what
  painting every queued upload in push order would show.
- Content epochs (`ContentRun`): in every interleaving, what was stamped passes the ownership check exactly when ownership has not
  changed since, and what passes belongs to the remote content in force.
- TCP (`AsyncTcp`, `TcpDelivery`): in every run without a fatal error the bytes that the kernel took of what it was offered, by
  system call or by the ring, are the finished frames whole and in order and then part of the next; a peer that reads all of them,
  however they are cut up, refuses no header and holds exactly the finished frames; coalescing hides nothing but intermediate pointer
  positions.
- Dirty tiles (`DirtyGrid`, `DirtyRects`): extraction draws each pixel of a dirty tile exactly once and no other; merging keeps the
  set of lit pixels.
- Video (`AnnexB`, `Av1`, `DecodeQueue`): keyframe validation gives the specification's verdict on the units of the stream, however
  they were written; frames reach the decoder in unbroken runs.
- Audio (`AudioPlayback`, `MediaClock`): decoded ranges abut, the playhead stays behind the first queued sample, conversions are
  exact saturating division.

Four results say something the code does not promise.

- A summary can lose a generation: one that lists a tile twice loses an announced one (`DoubledSummaryForgets`), one that goes back
  behind a pending generation loses that (`BackwardSummaryForgets`). `SummaryLosesExactly` gives the condition for any summary on the
  grid: a generation of a tile that is pending, or announced by an entry, is lost exactly if it is neither received nor queued, the
  tile is not asked for at it or above, and either the tile is asked for below it, or a later entry of the tile is at a received
  generation and none after that is at the lost one or above.
- A matured record can wait past its due time: the due queue is not in order of due times and is looked at from its head only
  (`LateHeadDelays`). `PromotedExactly` gives the condition: a record is promoted exactly if no record before it is due later.
- The remote epoch the render thread attaches to a video frame can be that of the content before (`AttachedEpochCanLag`; it is right
  exactly when the remote epoch has not moved since it was read, see `Content.Pop`).
- No audio packet is ever late: the branch that drops late packets cannot be taken (`Output.IsLate`).

## Model

| member | source | states |
|---|---|---|
| TileGeometry.CoveredOwnsAPixel | src/client/tile_reassembly.cpp:203-251 | the base tiles walked for a rectangle are exactly those that own one of its pixels |
| TileGeometry.CoveredInGrid | src/client/client_receive.cpp:142-179 | every base tile walked for a rectangle on the frame is a tile of the configured grid |
| TileGeometry.TileRectOnFrame | src/common/wd_tile.c:48-98 | the visible rectangle of a valid tile of any size is not empty and lies on the frame |
| TileGeometry.TileCovers | src/client/tile_reassembly.cpp:203-251 | a valid tile of any size covers at least one base tile and only tiles of the grid |
| TilePacket.DecodeEncode | include/waydisplay/wd_protocol.h:741-832 | decoding an encoded canonical header followed by its payload gives the header back, with and without the extension |
| TilePacket.EncodeDecode | include/waydisplay/wd_protocol.h:741-832 | whatever the decoder accepts is canonical, fills the packet and re-encodes to its own header bytes |
| TilePacket.FragmentsPartition | include/waydisplay/wd_protocol.h:834-858 | a valid layout partitions the payload: each byte is in exactly one fragment |
| TilePacket.FragmentInside | include/waydisplay/wd_protocol.h:834-858 | fragments are not empty and lie inside the payload |
| TilePacket.FragmentsDetermine | include/waydisplay/wd_protocol.h:834-858 | a buffer that agrees with a payload on every fragment is the payload |
| TilePacket.CopyFragment | src/client/tile_reassembly.cpp:828-872 | copying a fragment sets that fragment and leaves every other one alone |
| ReassemblyTable.AddKeepsTable | src/client/tile_reassembly.cpp:383-419 | activation keeps slot table and active array exact inverses |
| ReassemblyTable.RemoveKeepsTable | src/client/tile_reassembly.cpp:434-463 | swap-removal keeps them inverses and empties the slot of the removed tile |
| TileAssembly.CheckGate | src/client/tile_reassembly.cpp:699-720 | a packet passes the gate exactly when its generation is at least that of every covered base tile and above one |
| TileAssembly.AllReceivedIsPayload | src/client/tile_reassembly.cpp:828-903 | an entry with every receipt bit set that holds fragments of one payload holds the payload |
| TileAssembly.AbsorbKeepsEntry | src/client/tile_reassembly.cpp:828-872 | any fragment leaves the entry well formed with its key and sets its receipt, conflicts, or makes the entry whole with every receipt set; it conflicts exactly for another input sequence, or for other bytes of a fragment that is in already |
| TileAssembly.AbsorbFragment | src/client/tile_reassembly.cpp:828-903 | fragments of one payload never conflict; an entry that is kept has its old receipts and this one; it is whole exactly on the last missing fragment and then is the payload |
| TileReassembly.Reassembler.Remove | src/client/tile_reassembly.cpp:434-463 | removal keeps the table, the byte count and the budgets |
| TileReassembly.Reassembler.Reset | src/client/tile_reassembly.cpp:321-333 | reset forgets every entry and the frame size |
| TileReassembly.Reassembler.Configure | src/client/tile_reassembly.cpp:335-372 | slots follow the frame size; a new size drops all entries, the same size keeps them; it fails exactly when a size has no 16-bit tile count, and then changes nothing |
| TileReassembly.Reassembler.FindIsExact | src/client/tile_reassembly.cpp:374-381 | the slot lookup gives the one entry of a tile or there is none |
| TileReassembly.Reassembler.GiveUp | src/client/tile_reassembly.cpp:526-566 | an entry given up leaves every covered base tile received or queued at its generation or newer |
| TileReassembly.Reassembler.EnsureBudget | src/client/tile_reassembly.cpp:578-603 | eviction goes oldest first, repairs what it evicts, and stops as soon as the payload fits; it fails exactly for a payload that can never fit and then evicts nothing |
| TileReassembly.Reassembler.ExpireStale | src/client/tile_reassembly.cpp:623-639 | what stays is within the longest timeout, what is within the shortest stays, everything else is repaired |
| TileReassembly.Reassembler.Activate | src/client/tile_reassembly.cpp:383-419 | a new entry goes to the end of the active array and into its slot |
| TileReassembly.FewEntries | src/client/tile_reassembly.cpp:383-419 | entries have slots of their own, so the index of an entry is never the empty-slot marker and activation never fails for it |
| TileReassembly.Reassembler.Prepare | src/client/tile_reassembly.cpp:728-827 | the entry of a packet is found, replaced or begun; others are kept, repaired or superseded by a newer generation or another epoch; a packet is refused exactly if a newer generation is being assembled, or its own is not and its payload can never fit |
| TileReassembly.Reassembler.Finish | src/client/tile_reassembly.cpp:873-926 | a whole tile is delivered or, if it does not decompress, repaired |
| TileReassembly.Reassembler.ReceiveFragment | src/client/tile_reassembly.cpp:728-926 | partial tiles are conserved, and so is the tile of a packet that is not refused; with true fragments the entry of the tile has the receipts the packet found and its own, a tile comes out exactly when the last missing or only fragment arrives, is the payload, and is repaired if it does not decompress |
| TileReassembly.Reassembler.Admit | src/client/tile_reassembly.cpp:260-307 | a datagram is admitted exactly when it decodes, validates and passes the generation gate |
| TileReassembly.Reassembler.Receive | src/client/tile_reassembly.cpp:641-926 | the whole packet path, also with entries of another frame size: refused packets change neither entries nor requests, admitted ones are recorded, conserve partial tiles and deliver exactly the true tiles |
| TilePresent.ReplaceShowsAppend | src/client/tile_present_queue.cpp:16-41 | moving a replaced upload to the tail shows, at every pixel and epoch, what appending shows |
| TilePresent.ConcatShows | src/client/tile_present_queue.cpp:54-63 | uploads that show the same, followed by uploads that show the same, show the same at every pixel and epoch |
| TilePresent.PresentQueue.Push | src/client/tile_present_queue.cpp:8-52 | exact conditions for Queued, Superseded and Rejected; one upload per rectangle and epoch, exact bounded bytes |
| TilePresent.PresentQueue.Drain | src/client/tile_present_queue.cpp:54-63 | the drained uploads are valid, were queued, and show what every queued upload would have shown in push order |
| TileImage.Apply | src/client/tile_recovery_image.cpp:8-37 | copies exactly the rectangle into the framebuffer or changes nothing, with the exact condition |
| TileImage.PaintShows | src/client/tile_recovery_image.cpp:8-37 | each pixel is decided by the last valid upload of the epoch that covers it |
| TileImage.DrainRefinesPushOrder | src/client/tile_present_queue.cpp:8-63 | uploads that show the same as a history paint the same frame, for every epoch and frame width |
| TileImage.ApplyDrained | src/client/sdl_direct_tile_upload.cpp:56-95 | the renderer paints exactly the valid uploads of the epoch it read, up to the first for which the frame has no room, and none when video owns the screen; it fails exactly at such an upload |
| TileImage.Render | src/client/sdl_direct_tile_upload.cpp:26-95 | draining the queue and painting what comes out gives the frame that painting every queued upload in push order would give |
| ClientReceive.CompletionsInOrder | src/client/client_receive.cpp:181-193 | over a run the completions of a base tile come in generation order |
| ClientReceive.LastGenIsNewest | src/client/client_receive.cpp:181-193 | the last completion applied to a base tile is the newest |
| ClientReceive.NeverSuperseded | src/client/tile_present_queue.cpp:18-27 | a tile that opened the generation gate never finds a newer upload of its rectangle queued |
| ClientReceive.Receiver.Complete | src/client/client_receive.cpp:294-393 | a presented tile is marked on the base tiles it covers, one that was not presented on none |
| ClientReceive.Receiver.OnDatagram | src/client/client_receive.cpp:294-393 | a datagram that is not let through changes no partial tile, any other conserves them; a true one is recorded in the entry of its tile, which stays exactly until it is whole; a tile comes out exactly on its last missing fragment, is presented exactly if current and complete, and a queued upload is that of the key of the datagram with the pixels of its payload; Superseded is never answered |
| ArrivalLog.ReceiptsAreArrivals | src/client/tile_reassembly.cpp:728-903 | at every point of a run the receipts of an entry are exactly the fragments that arrived since its tile was opened |
| ArrivalLog.JoinsWhole | src/client/tile_reassembly.cpp:828-903 | an arrival that joins an entry completes the tile exactly if the entry lacks only that fragment |
| ArrivalLog.OpensWhole | src/client/tile_reassembly.cpp:728-903 | an arrival that finds no live entry completes the tile exactly if the tile has one fragment |
| ReceiveRun.ArrivesIsCompleted | src/client/tile_reassembly.cpp:728-903 | in every run, that all fragments have arrived and that the receipts lack only this one are the same |
| ReceiveRun.Execute | src/client/client_receive.cpp:294-393 | every run of datagrams, expiries, resets and drains keeps the fence; each datagram brings its tile out exactly if it is admitted, not refused, decodes, and with it all fragments have arrived since the tile was opened; what was rendered and is still queued shows what the datagrams that queued their tiles were sent to show; every tile that was ever partial is accounted for |
| RepairLog.RequestIntervalNs | src/client/client_net.cpp:153-164 | the request interval is between 250 and 1200 ms whatever is stored |
| RepairLog.RequestsAreSpaced | src/client/client_net.cpp:2935-2949 | over a whole log, requests for a tile that do not raise the generation are 250 ms apart, consecutive ones by the interval in force |
| RepairLog.NewRequestSpaced | src/client/client_net.cpp:2935-2949 | a permitted request keeps that distance from every earlier one of its tile |
| RepairTables.PendingTable.IndexAdd | src/client/render_planning.cpp:536-552 | the dense index and positions stay inverses and gain exactly the tile |
| RepairTables.PendingTable.IndexRemove | src/client/render_planning.cpp:554-574 | they stay inverses and lose exactly the tile |
| RepairTables.PendingTable.Clear | src/client/client_net.cpp:756-768 | clearing a tile removes its generation, age and index entry and no other |
| RepairTables.PendingTable.Set | src/client/client_net.cpp:774-791 | a pending generation is only raised, is indexed, and gets a due record of that generation at the end of its grace |
| RepairTables.RequestTable.Queue | src/client/client_net.cpp:828-847 | a generation is queued at the highest value asked for and its tile is in the queue |
| RepairTables.RequestTable.RepairPartial | src/client/tile_reassembly.cpp:141-197 | a lost partial tile is queued exactly when its generation has not been received, and no longer counts as in flight |
| RepairTables.RequestTable.RepairPartials | src/client/tile_reassembly.cpp:542-566 | every base tile of a lost partial tile ends received or queued and off the in-flight marks of that generation, others are untouched |
| RepairTables.RequestTable.NoteInflight | src/client/tile_reassembly.cpp:728-827 | exactly the covered base tiles count as in flight from now on |
| RepairTables.RequestTable.Receive | src/client/client_receive.cpp:97-126 | a receipt raises the received generation and drops exactly the queued, requested and in-flight state it satisfies |
| RepairTables.RequestTable.FlushNext | src/client/client_net.cpp:2902-2950 | the head of the queue is requested, deferred to the tail, or dropped, each under its exact condition |
| RepairTables.RequestTable.Flush | src/client/client_net.cpp:2889-2951 | every queued generation is requested, received or still queued; requested tiles are distinct and bounded, recorded in the log and marked; what stays is deferred |
| RepairTables.RequestTable.MayRequest | src/client/client_net.cpp:2935-2949 | the tracking fields are enough to know that a request keeps the spacing, although receipts clear them |
| RepairPlan.MaxAskedIsMax | src/client/client_net.cpp:828-847 | the generation a tile is queued at is the newest of its candidates |
| RepairPlan.ScanOnce | src/client/client_net.cpp:911-975 | in a summary that lists each tile once exactly the ripe announcements become candidates, and each tile is judged by its one announcement |
| RepairPlan.ScanClears | src/client/client_net.cpp:911-975 | after any part of a summary a tile is pending below a generation it was pending at exactly if an entry at a received generation cleared it and none after that raised it again |
| RepairPlan.SummaryLosesExactly | src/client/client_net.cpp:911-1014 | for any summary on the grid, a pending generation or an announced one ends neither received, pending nor queued exactly if it is neither received nor queued, the tile is not asked for at it or above, and the tile is asked for below it or was cleared by a later entry and not raised again |
| RepairPlan.OnceKeeps | src/client/client_net.cpp:911-1014 | a summary that lists each tile once keeps every generation it announces |
| RepairPlan.ForwardKeeps | src/client/client_net.cpp:911-1014 | a summary that also never goes back behind a pending generation keeps everything pending |
| RepairPlan.ReachedExactly | src/client/client_net.cpp:1048-1053 | a due record is reached exactly if it and all records before it are due |
| RepairPlan.CollectStep | src/client/client_net.cpp:1048-1098 | a due record is judged as if the table were the one at the start of the promotion |
| RepairPlan.PromotionHandsOver | src/client/client_net.cpp:1048-1164 | queueing candidates of matured records loses nothing pending |
| RepairPlan.RetryWhenIdle | src/client/client_net.cpp:1073-1094 | a due record is retried exactly when nothing of its generation is in flight or recently requested, unless a stored time is ahead |
| RepairPlan.IndexCounts | src/client/render_planning.cpp:536-574 | the dense index counts the pending tiles |
| RepairScheduler.Scheduler.Complete | src/client/client_receive.cpp:181-193 | a completion raises exactly the covered tiles and drops exactly what it satisfies |
| RepairScheduler.Scheduler.QueueCandidates | src/client/client_net.cpp:1002-1014 | each tile of a candidate is queued at the newest generation asked for and taken off the pending table; no other tile changes |
| RepairScheduler.Scheduler.LimitCandidates | src/client/client_net.cpp:793-826 | under pressure exactly the oldest candidates are kept, otherwise all, and none is lost |
| RepairScheduler.Scheduler.Announce | src/client/client_net.cpp:918-975 | an announcement is satisfied, newly pending with a due record at the end of its grace, waiting or a candidate, each under its exact condition |
| RepairScheduler.Scheduler.Scan | src/client/client_net.cpp:911-975 | the scan of any summary is the fold of its announcements, with their due records and the age of the youngest candidate |
| RepairScheduler.Scheduler.HandleSummary | src/client/client_net.cpp:849-1026 | exactly what the summary asks for is queued and leaves the pending table; what is pending or announced is lost exactly under the condition of SummaryLosesExactly; a summary that lists each tile once keeps what it announces, and one that never goes back keeps everything pending; one off the grid changes nothing |
| RepairScheduler.Scheduler.TakeDue | src/client/client_net.cpp:1048-1098 | a due record is stale, satisfied, put back into the future, or a candidate, each under its exact condition |
| RepairScheduler.Scheduler.CollectDue | src/client/client_net.cpp:1048-1098 | emptying the due queue ends and yields exactly the matured records at its head; those to be waited for go to its tail with the time their wait is over; every pending tile keeps a due record or is a candidate |
| RepairScheduler.Scheduler.Promote | src/client/client_net.cpp:1028-1164 | exactly what the promotion asks for is queued; every pending generation stays pending with a due record, was received, or is queued; what is put back has its exact new due time, and a second promotion at the same time asks for nothing |
| RepairScheduler.Scheduler.NothingDueAfter | src/client/client_net.cpp:1048-1137 | after a promotion no record at the head of the due queue is due |
| RepairScheduler.Scheduler.PromotedExactly | src/client/client_net.cpp:1048-1164 | a promotion that is not throttled asks for exactly the tiles of records that are due, have matured, and stand behind no record that is due later |
| RepairScheduler.Scheduler.OverdueIsPromoted | src/client/client_net.cpp:1048-1164 | a matured record that is due, as are all before it, is asked for at its generation or a newer one, unless the promotion is throttled |
| RepairRun.Execute | src/client/client_net.cpp:849-1164 | over every run what is owed is received, pending, queued, or requested after the event that owed it, under the server's promise; requests are spaced in any case |
| RepairRun.AskQueued | src/client/client_net.cpp:2889-2951 | a flush with room requests every queued generation that is neither received nor on the way |
| RepairRun.AskOverdue | src/client/client_receive.cpp:595-607 | promotion and flush request in one pass the generation of every matured record that is due, as are all before it, unless the promotion is throttled or the message full |
| RepairRun.LateHeadDelays | src/client/client_net.cpp:1048-1053 | a run of the scheduler after which a matured record is past its due time, the promotion is not throttled, and it asks for nothing, because an earlier record is due later |
| RepairRun.BackwardSummaryForgets | src/client/client_net.cpp:911-1014 | a run of the scheduler in which a summary behind a pending generation loses it |
| RepairRun.DoubledSummaryForgets | src/client/client_net.cpp:911-1014 | a run of the scheduler in which a summary that lists a tile twice loses an announced generation |
| StreamOwnership.PackRoundTrip | src/client/stream_ownership.c:3-5 | epoch and owner come back out of the packed word, the epoch modulo 2^63 |
| StreamOwnership.SameEpoch | src/client/stream_ownership.c:31-61 | epochs come round after exactly 2^63 changes and not before |
| ContentOrder.Content.Advance | src/client/stream_ownership.c:49-61 | the compare-and-swap loop ends with a new epoch and the asked owner |
| ContentOrder.Content.EndVideo | src/client/stream_ownership.c:31-47 | ending video advances the epoch exactly if video owned the screen |
| ContentOrder.Content.BeginAccept | src/client/content_order.cpp:36-57 | Stale, Current and Advanced under their exact conditions; an advance drops frames and dirty tiles, any other answer changes nothing |
| ContentOrder.Content.BeginReset | src/client/content_order.cpp:77-91 | any non-zero epoch is taken, frames and dirty tiles dropped; zero changes nothing |
| ContentOrder.Content.FinishTransition | src/client/content_order.cpp:58-74 | the remote epoch and owner are stored and the fence holds again |
| ContentOrder.Content.Discard | src/client/client_net.cpp:1235-1252 | discarding leaves tiles owning, no frame queued, and dirty tiles stamped with the current epoch |
| ContentOrder.Content.MakeRoom | src/client/video_present_queue.cpp:7-20 | a full queue gives up exactly its newest frame |
| ContentOrder.Content.Publish | src/client/client_net.cpp:1396-1446 | a frame is queued exactly if it belongs to the video content in force, stamped with the current epoch |
| ContentOrder.Content.Pop | src/client/sdl_viewer.cpp:1553-1656 | a popped frame is the oldest, current, and of the remote content in force |
| ContentOrder.Content.StampTile | src/client/client_receive.cpp:304-331 | a completed tile is stamped exactly if it belongs to the tile content in force |
| ContentOrder.Content.TakeDirty | src/client/sdl_viewer.cpp:2631-2639 | dirty tiles taken by the renderer carry the current epoch |
| ContentOrder.Content.Fence | src/client/sdl_direct_tile_upload.cpp:56-62 | what was stamped passes a later check exactly if the changes in between are a multiple of 2^63 with the same owner; below that, none |
| ContentRun.Execute | src/client/content_order.cpp:12-104 | the fence, unused epochs, current video frames and tile ownership in every interleaving |
| ContentRun.QueueIsCurrent | src/client/client_net.cpp:1396-1446 | queued video frames carry the current epoch while video owns the screen, and there are none under a tile owner |
| ContentRun.AttachedEpochCanLag | src/client/sdl_viewer.cpp:1540-1551 | a run in which the attached remote epoch is not the frame's own |
| TcpFrames.ParseWritten | src/common/wd_net.c:203-220 | the reader's header check gives back the type and size written |
| TcpFrames.WriteParsed | src/common/wd_net.c:203-220 | a header that passes the check is the one the writer produces |
| TcpFrames.FramingIsUnique | src/client/client_async_tcp.cpp:258-293 | two frame lists that explain one stream agree as far as the shorter goes |
| PendingList.List.Add | src/client/client_async_tcp.cpp:77-90 | the doubly linked list gains the message at its tail, links and byte sum stay exact |
| PendingList.List.Remove | src/client/client_async_tcp.cpp:92-122 | unlinking from anywhere leaves the others in order, links and byte sum exact |
| PointerTraffic.DropTail | src/client/client_async_tcp.cpp:220-240 | motions at the tail may go once another motion follows |
| PointerTraffic.SameKeepsOthers | src/client/client_async_tcp.cpp:220-240 | equivalent traffic has the same other frames in the same order |
| TcpLedger.AdvanceIsExact | include/waydisplay/wd_async_tcp_policy.h:116-132 | progress never passes the buffer, moves by what was reported, completes exactly at the end |
| TcpLedger.StepKeeps | src/client/client_async_tcp.cpp:77-525 | every transmission, admission and socket binding keeps the ledger faithful; the sender's invariant equates the ledger's wire with the bytes the kernel took |
| TcpLedger.HistoryIsFaithful | src/client/client_async_tcp.cpp:77-525 | after any history the wire is the finished frames and part of the next, accepted traffic is finished plus queued, counters balance |
| TcpLedger.ProgressedAccepts | src/client/client_async_tcp.cpp:398-525 | transmission accepts nothing and only extends wire and finished frames |
| AsyncTcp.AdvanceTakes | include/waydisplay/wd_async_tcp_policy.h:116-132 | the count of bytes sent moves by just what the kernel took of what it was offered |
| AsyncTcp.Sender.KernelSend | src/client/client_async_tcp.cpp:124-141 | a send puts the first bytes of what it was offered on the wire, as many as it reports |
| AsyncTcp.Sender.Settle | src/client/client_async_tcp.cpp:143-181 | a kernel result advances, finishes or breaks the head frame and nothing else; the history grows by as many bytes as the wire did, so that it accounts for all of it again |
| AsyncTcp.Sender.ProgressFallback | src/client/client_async_tcp.cpp:143-181 | the syscall fallback only transmits, over any results: what is on the wire stays what the history accounts for; with the fallback on and nothing in flight, what is left of the head frame is given to a send |
| AsyncTcp.Sender.SubmitHead | src/client/client_async_tcp.cpp:321-371 | the ring is offered just the bytes left of the head or is retired in favour of the fallback; it is asked exactly if it is ready |
| AsyncTcp.Sender.TryStartHead | src/client/client_async_tcp.cpp:373-396 | starting the head fails only with a fatal error, and otherwise a listed frame is with the kernel or the fallback is on |
| AsyncTcp.Sender.HandleCompletion | src/client/client_async_tcp.cpp:440-524 | any completion puts on the wire what the ring took of the bytes offered and is accounted for, or breaks the connection, which a failed send always does; the next frame starts or the rest is resubmitted, and a ring that cannot send gives way to the fallback |
| AsyncTcp.Sender.Reap | src/client/client_async_tcp.cpp:398-525 | reaping only transmits; all completions are settled as long as the ring has a frame, the first in any case if it had one; with the fallback on, or a submission that was put off and now fails, what is left of the head frame is given to a send |
| AsyncTcp.Sender.Bind | src/client/client_async_tcp.cpp:242-255 | a socket is bound exactly if it is the pinned one or nothing is listed |
| AsyncTcp.Sender.ReplaceableBytes | src/client/client_async_tcp.cpp:201-218 | the bytes of exactly the replaceable motions at the tail |
| AsyncTcp.DropReplaceable | src/client/client_async_tcp.cpp:220-240 | exactly the replaceable motions at the tail are dropped, in any list |
| AsyncTcp.Sender.HasRoom | include/waydisplay/wd_async_tcp_policy.h:14-26 | capacity is judged after replacement, against the limit and 64 bits |
| AsyncTcp.Sender.Enqueue | src/client/client_async_tcp.cpp:772-783 | superseded motion goes, the frame joins the tail, and the history says so |
| AsyncTcp.Sender.Accept | src/client/client_async_tcp.cpp:749-791 | a frame is accepted exactly if its size is valid, it fits, it could be created and nothing broke |
| AsyncTcp.Sender.SendMessage | src/client/client_async_tcp.cpp:729-791 | the frames taken are exactly those answered true on the bound socket |
| AsyncTcp.Sender.ReapAndStart | src/client/client_async_tcp.cpp:719-727 | polling takes no frame and keeps the counters |
| TcpReader.Reader.Receive | src/common/wd_net.c:182-257 | for any chunking the bytes read are the delivered frames and the frame in progress |
| TcpDelivery.Execute | src/client/client_async_tcp.cpp:729-791 | over any run, until a fatal error, the bytes the kernel took are a faithful stream, queued = completed + coalesced + listed, and a listed frame is with the ring or the fallback is on |
| TcpDelivery.ReadStream | src/common/wd_net.c:182-257 | no header of a sound sender is refused, and a fully read stream gives exactly the finished frames |
| TcpDelivery.PeerReads | src/common/wd_net.c:182-257 | a peer reading what the kernel took refuses no header and holds the finished frames; with those still listed they are what was accepted, up to superseded pointer motion |
| DirtyRects.ClampIntersects | src/client/render_planning.cpp:21-40 | clamping is intersection with the frame and refuses only an empty one |
| DirtyRects.MergeRows | src/client/render_planning.cpp:251-267 | one merging pass keeps the lit pixels |
| DirtyRects.Coalesce | src/client/render_planning.cpp:216-303 | no more rectangles than before, exactly the lit pixels of the frame |
| TileRuns.NewBox | src/client/render_planning.cpp:165-174 | a new run covers its tiles exactly once and stacks on no box of its width |
| TileRuns.GrowBox | src/client/render_planning.cpp:157-164 | lengthening a box covers the run's tiles exactly once |
| TileRuns.PixelsFollowTiles | src/client/render_planning.cpp:157-173 | a pixel is drawn as often as its tile is covered |
| DirtyGrid.Grid.Reset | src/client/render_planning.cpp:42-80 | a valid frame gives a clean grid of the right size, any other an empty one |
| DirtyGrid.Grid.Clear | src/client/render_planning.cpp:82-85 | no tile stays dirty |
| DirtyGrid.Grid.MarkRect | src/client/render_planning.cpp:87-112 | exactly the tiles sharing a pixel with the visible part become dirty; the count is exact |
| DirtyGrid.Grid.TakeRects | src/client/render_planning.cpp:114-178 | each pixel of a dirty tile is drawn once and no other, rectangles lie on the frame, none stacks, the grid is clean |
| AnnexB.AcceptsExactly | src/client/video_keyframe_recovery.c:112-199 | accepted exactly if all units are well formed, a tracked slice exists, and every one is random access after all parameter sets |
| AnnexB.Validate | src/client/video_keyframe_recovery.c:123-199 | the scanning loop gives the verdict on the units of the stream |
| AnnexB.PrintedVerdict | src/client/video_keyframe_recovery.c:129-192 | printing clean units with any start codes and leading zeros and validating gives the verdict on the units |
| Av1.ReadLeb | src/client/video_keyframe_recovery.c:43-67 | sizes are read exactly as leb128 of at most ten bytes and 64 bits, or refused |
| Av1.EncodingIsRead | src/client/video_keyframe_recovery.c:43-67 | any encoding of a 64-bit number in up to ten bytes is read back |
| Av1.SizeRoundTrip | src/client/video_keyframe_recovery.c:43-67 | reading undoes the shortest encoding of every 64-bit size |
| Av1.AcceptsExactly | src/client/video_keyframe_recovery.c:22-110 | accepted exactly if all units parse, headers are sound, and a picture is left standing |
| Av1.Validate | src/client/video_keyframe_recovery.c:22-110 | the unit loop gives the verdict on the units of the stream |
| Av1.PrintedVerdict | src/client/video_keyframe_recovery.c:22-110 | units written with or without extension, with sizes in any encoding, and validated give the verdict on the units |
| Keyframe.Validate | src/client/video_keyframe_recovery.c:112-199 | empty and unknown streams are invalid, each codec's units decide otherwise |
| DecodeQueue.DecodeQueue.Offer | src/client/client_net.cpp:1747-1857 | exact effect of keyframes, control frames, inter frames, overflow and unusable keyframes; the depth stays within capacity |
| DecodeQueue.DecodeQueue.Pop | src/client/client_net.cpp:2059-2076 | the worker takes the oldest packet |
| DecodeQueue.RunBehind | src/client/video_decode_queue_policy.c:3-49 | behind a delivered inter frame stand all its predecessors back to its keyframe |
| DecodeQueue.Execute | src/client/client_net.cpp:1747-1857 | every interleaving delivers unbroken runs within capacity |
| AudioTimeline.RangeAccepted | src/client/audio_playback_clock.hpp:55-73 | in sequence no decoded range is rejected; the first starts at the segment, later ones where the timeline minus the delay had got to |
| AudioTimeline.PlayheadBounds | src/client/audio_playback_clock.hpp:86-107 | the playhead lies between the start and the first sample still queued |
| AudioTimeline.RebaseIsOverflow | src/client/audio_playback_clock.hpp:80-84 | a rebase is needed exactly if the FIFO would pass its limit |
| AudioPlayback.Timeline.Retain | src/client/audio_playback.cpp:523-537 | the retained range of an in-sequence packet exists and continues the timeline |
| AudioPlayback.Timeline.Advance | src/client/audio_playback.cpp:600-604 | the segment grows by exactly one range that abuts the last |
| AudioPlayback.Output.CurrentPlayhead | src/client/audio_playback.cpp:101-110 | the playhead stays between playback start and first queued sample |
| AudioPlayback.Output.IsLate | src/client/audio_playback.cpp:540-555 | no packet is ever late |
| AudioPlayback.Output.ConfirmStarvation | src/client/audio_playback.cpp:177-218 | starvation is confirmed exactly if the FIFO is empty and all submitted PCM was presented |
| AudioPlayback.Output.Put | src/client/audio_playback.cpp:582-601 | submitted end minus playback start stays the PCM put |
| AudioPlayback.Playback.MakeRoom | src/client/audio_playback.cpp:557-581 | the FIFO never holds more than its limit or one packet |
| AudioPlayback.Playback.EndStream | src/client/audio_playback.cpp:468-504 | the end of the stream fails exactly if PCM cannot be flushed, or queued PCM can be neither started nor cleared |
| AudioPlayback.Playback.HandlePacket | src/client/audio_playback.cpp:433-612 | what decoder and device answer decides whether a packet is refused, ends the stream, is undecodable, cannot be put, breaks the stream or is played; a played packet in sequence extends the segment by one range, after a gap it opens a new one |
| AudioPlayback.Execute | src/client/audio_playback.cpp:433-612 | ranges abut, submitted range equals PCM put, playhead bounded, over every run |
| MediaClock.SplitScaleExact | include/waydisplay/wd_media_clock.h:18-49 | split fixed-point scaling is exact saturating division and no product wraps |
| MediaClock.MediaConversionsExact | include/waydisplay/wd_media_clock.h:18-49 | nanoseconds and microseconds to samples are exact |
| MediaClock.FramesToSamplesFpExact | src/client/audio_playback_clock.hpp:11-40 | frames to Q32 samples is the floor of the exact quotient, saturated, and 0 without rates |
| MediaClock.WaitMsExact | src/client/audio_video_sync.c:12-50 | the wait is the ceiling in milliseconds, cut at 20, never zero |
| MediaClock.HoldRetryExact | src/client/audio_video_sync.c:12-50 | a held frame is retried after the exact wait, between 1 and 20 ms |
| MediaClock.HoldConverges | src/client/audio_video_sync.c:12-50 | after the retry the frame is not dropped, and is presented unless the wait was cut |

## Left out

- The server, the handshake, MTU and throughput probes, configuration exchange and selection transfer.
- SDL windows, textures, menus and the choice between upload plans (`plan_dirty_texture_upload`); only the ownership checks around uploads are modelled.
- Telemetry and statistics, except the TCP sender's own counters.
- The estimation of the reassembly timeout from samples: the timeout is any value between its clamps. ExpireStale states what holds for all of them.
- Recycled entry and buffer pools of the reassembler; receipt bitmaps are sequences of 256 bits.
- zstd is an arbitrary function from bytes and a size to an optional result, the same for both ends.
- Receiver.Complete: the framebuffer fallback after a rejected push is a flag that says whether the blit succeeded; its pixels are not tracked.
- ReceiveRun.Execute: one configuration; configuration changes are resets. Flushes of the request queue are not events of this run, RepairRun has them.
- RepairScheduler.Scheduler.Promote: the retry times and the cool-down, the present time plus at most one second, do not wrap around at 2^64 ns.
- RepairRun.Execute: events name tiles of the grid; HandleSummary states that other summaries are refused. Session, count and flag checks of the summary message come before the modelled code.
- ContentRun.Execute: runs shorter than 2^63 - 1 regions, so that the 63-bit epoch does not wrap; Fence states the exact condition without that bound.
- Content.Advance: a failed exchange is spurious, because every writer of the word holds the dirty and video locks.
- `wd_client_stream_ownership_begin_video_stream` has no caller and is not a step.
- AsyncTcp.Sender.Reap: completions arrive only for a send the ring accepted, and those after it has no frame left are not looked at; cancellation and teardown of the sender are not modelled. The payload-size table shared by both ends is a parameter.
- TcpReader.Reader.Receive: read deadlines, peer close and allocation failure are not modelled.
- DirtyGrid.Grid: the row-major vector of flags is a two-dimensional array.
- AudioPlayback.Playback.HandlePacket: once the device cannot be paused or cleared the stream is closed and the rest of that call is not followed; a closed stream refuses packets until it is configured again.
- The startup gate that holds video until audio is buffered.
- Little-endian hosts are assumed, as the packed structures of the protocol do.
