# msquic receive buffer, worker scheduling and sent-packet metadata in Dafny

This project models three pieces of msquic's C core and proves what they
promise.

**The stream receive buffer** (`src/core/recv_buffer.c`). It reassembles
out-of-order QUIC stream bytes (section 2.2 of RFC 9000) and holds them until
the application drains them. Its `VirtualBufferLength` is the stream
flow-control window advertised to the peer (section 4.1 of RFC 9000).

- `QuicRecvBuffer.RecvBuffer` is a class with the header's fields:
  `BaseOffset`, `ReadStart`, `ReadPendingLength`, `ReadLength`, `Capacity`,
  `VirtualBufferLength`, `RecvMode`, `WrittenRanges`, the chunk list and the
  retired chunk. Every operation updates these fields in place.
- A ghost map `Data` records, for every stream offset ever accepted, the byte
  accepted there.
- `Valid()` is the invariant every operation keeps:
  - the header is consistent (`RecvState.Consistent`);
  - every written offset from `BaseOffset` on holds its accepted byte in the
    chunks, read through the circular first chunk and the linear later ones
    (`RecvChunks.StoredIn`).
- All four modes are modelled: single, circular, multiple and app-owned.
- Each operation's effect on the header is a function in `RecvState`.
  Lemmas there prove that the functions keep the header consistent.
- The main result: `Read` hands out, from `BufferOffset` on, exactly the
  bytes `Write` accepted at those stream offsets.

**Worker execution-context scheduling** (`src/platform/platform_worker.c`).

- `Worker.Worker` holds the pending list, the active list, the `Running`
  flag and the event queue.
- The run pass is also a function, `RunPass`. Lemmas state which callbacks
  run, which contexts survive and in what order, and the earliest next time.
- `WaitTimeOf` is the millisecond wait computed from that next time.

**Sent-packet metadata** (`src/core/sent_packet_metadata.c`).

- There is one pool per frame count; the block from pool `FrameCount - 1`
  has room for exactly `FrameCount` frames.
- Releasing a packet's frames produces an effect log: one stream decrement
  per stream frame, and one lost-discarded indication per datagram frame
  that has a client context.

Supporting modules:

- `Ranges` is the written-range set: sorted, disjoint `[Low, Low + Count)`
  intervals, with `AddRange` reporting whether anything changed.
- `Geometry` holds the chunk layout arithmetic: sums, `Locate`, powers of
  two.

The files are `Ranges.dfy`, `Geometry.dfy`, `RecvState.dfy`,
`RecvChunks.dfy`, `RecvBuffer.dfy`, `Worker.dfy` and `SentPacketMetadata.dfy`.

## Model

| member | source | states |
|---|---|---|
| RecvChunks.ChunkInitialize | src/core/recv_buffer.c:48-59 | A new chunk covers exactly the memory it is given and is not externally referenced. |
| RecvState.InitialConsistent | src/core/recv_buffer.c:81-133 | The header `Initialize` sets up is consistent and has nothing readable. |
| QuicRecvBuffer.RecvBuffer.Initialize | src/core/recv_buffer.c:81-133 | Fails with OutOfMemory exactly when a non-app-owned buffer has no preallocated chunk and the allocation fails; otherwise returns a valid buffer in the initial state, using the preallocated chunk when given. |
| QuicRecvBuffer.RecvBuffer.GetTotalLength | src/core/recv_buffer.c:158-168 | The result is at least BaseOffset, is above every written offset, and the offset just below it was written. |
| QuicRecvBuffer.RecvBuffer.GetSpan | src/core/recv_buffer.c:178-183 | The span past BaseOffset covers every written offset, ends on a written offset, and fits in the allocated chunks. |
| QuicRecvBuffer.RecvBuffer.HasUnreadData | src/core/recv_buffer.c:187-198 | True exactly when the offset just past the data handed out has been written, that is, when more contiguous data is readable. |
| QuicRecvBuffer.RecvBuffer.IncreaseVirtualBufferLength | src/core/recv_buffer.c:202-210 | Only VirtualBufferLength changes, to the new length, and the buffer stays valid. |
| RecvState.ProvidedConsistent | src/core/recv_buffer.c:214-251 | Appending app-owned chunks keeps the header consistent, grows the total length by their sum, and keeps the capacity unless the list was empty. |
| QuicRecvBuffer.ProvidedKeeps | src/core/recv_buffer.c:214-251 | Appended chunks keep every stored byte where the invariant expects it. |
| QuicRecvBuffer.RecvBuffer.ProvideChunks | src/core/recv_buffer.c:214-251 | InvalidParameter, with nothing changed, exactly when the new virtual length would exceed UINT32_MAX; otherwise the chunks are appended and the virtual length grows by their total. |
| QuicRecvBuffer.RecvBuffer.Resize | src/core/recv_buffer.c:260-385 | On allocation failure nothing changes; otherwise the header and chunks become the resized ones, and the buffer stays valid, so every unread byte is still in place. |
| QuicRecvBuffer.RecvBuffer.CopyIntoNewFirstChunk | src/core/recv_buffer.c:294-326 | Copying the only chunk into a larger one (wrapped part last) gives the resized header and chunks. The old chunk is retired if it was referenced. |
| RecvState.ResizedConsistent | src/core/recv_buffer.c:260-385 | The resized header is consistent, at least as long as the target, never shorter than before, and has the same readable prefix. |
| RecvState.ResizedOnlyChunk | src/core/recv_buffer.c:299-326 | Replacing or retiring the only chunk reads from the start of the new chunk, whose length becomes the capacity. |
| RecvState.ResizedReplaceLast | src/core/recv_buffer.c:328-340 | Replacing an unreferenced later chunk keeps the header consistent and lengthens the buffer to at least the target. |
| RecvState.ResizedAppend | src/core/recv_buffer.c:349-351 | In multiple mode a referenced last chunk stays and the new chunk adds its whole length. |
| QuicRecvBuffer.ResizedKeeps | src/core/recv_buffer.c:260-385 | Every stored byte is still where the invariant expects it after the resize. |
| QuicRecvBuffer.RecvBuffer.GetTotalAllocLength | src/core/recv_buffer.c:389-445 | The result is the buffer's total length and covers every written offset past BaseOffset. |
| QuicRecvBuffer.FindWriteChunk | src/core/recv_buffer.c:527-557 | The chunk walk stops at the chunk holding the first written byte, at its offset within that chunk; the chunks before it are left unchanged by the copy. |
| QuicRecvBuffer.CopyIntoChunkList | src/core/recv_buffer.c:499-612 | The multi-chunk copy loop leaves exactly the chunks CopiedChunks specifies. |
| QuicRecvBuffer.RecvBuffer.CopyIntoChunks | src/core/recv_buffer.c:449-614 | The bytes at or past BaseOffset are copied into the chunks CopiedChunks specifies, and ReadLength becomes the first chunk's readable length. |
| QuicRecvBuffer.WrittenKeeps | src/core/recv_buffer.c:449-614 | After the copy, every written offset holds the newly accepted byte, and every other stored byte is unchanged. |
| QuicRecvBuffer.DoubledBounds | src/core/recv_buffer.c:680-687 | The doubled length is a power of two above the old one, large enough for the write, and the first doubling that is. |
| QuicRecvBuffer.DoubledLength | src/core/recv_buffer.c:680-687 | The doubling loop computes Doubled. |
| QuicRecvBuffer.ShiftLeftU32 | src/core/recv_buffer.c:686 | The uint32 shift stays below 2^32 and doubles every length below 2^31. |
| QuicRecvBuffer.DoublingU32NeverReaches | src/core/recv_buffer.c:680-687 | Starting from a last chunk of 2^30 bytes, no number of uint32 doublings reaches 2^31 + 1, so the loop as written never ends for such a write. |
| QuicRecvBuffer.RecvBuffer.Write | src/core/recv_buffer.c:619-730 | Status, WriteLimit, ReadyToRead and the new header, chunks and accepted bytes are exactly WriteResult of the old ones, and the buffer stays valid. |
| QuicRecvBuffer.WriteResultStatus | src/core/recv_buffer.c:634-661 | A write ending at or below BaseOffset succeeds with nothing changed and WriteLimit 0. Otherwise BufferTooSmall exactly when it passes the virtual length or brings more new bytes than allowed. OutOfMemory exactly when a needed chunk or range allocation fails. |
| QuicRecvBuffer.WriteResultRefused | src/core/recv_buffer.c:644-657 | A failed write leaves the written ranges, BaseOffset and accepted bytes unchanged and is not ready to read; BufferTooSmall also leaves the header, chunks and WriteLimit unchanged. |
| QuicRecvBuffer.WriteResultAccepted | src/core/recv_buffer.c:653-722 | A successful write covers exactly the old offsets plus its own. WriteLimit is how far it moved the end of the written data, within the allowed limit. ReadyToRead holds exactly when the readable prefix grew. |
| QuicRecvBuffer.WriteResultData | src/core/recv_buffer.c:712-727 | A successful write that brought new offsets records its bytes at every offset from BaseOffset on; one that brought none changes no byte. |
| Ranges.AddRange | src/core/recv_buffer.c:697-717 | The new set is normalized and covers exactly the old offsets plus the new ones. Updated holds exactly when some new offset was not covered. When not updated the set is unchanged. |
| Ranges.AddRangeReady | src/core/recv_buffer.c:712-722 | The updated range starting at 0 is the same thing as the readable prefix growing. |
| QuicRecvBuffer.RecvBuffer.ReadBufferNeededCount | src/core/recv_buffer.c:734-797 | 1, 2 or 3 buffers in single, circular or multiple mode. In app-owned mode, 0 with nothing written, else the fewest chunks holding the readable first range. |
| RecvState.ReadStateSpec | src/core/recv_buffer.c:801-1019 | A read changes only ReadPendingLength and references. Outside app-owned mode it hands out all contiguous data; in app-owned mode some, if any is readable. References are only added. |
| RecvState.ReadStateConsistent | src/core/recv_buffer.c:801-1019 | The header after a read is consistent, with the same readable prefix and no less handed out. |
| QuicRecvBuffer.ReadHandsOut | src/core/recv_buffer.c:801-1019 | Buffers holding the stored bytes after the pending ones hold the bytes accepted at those stream offsets, and the read keeps the invariant. |
| QuicRecvBuffer.RecvBuffer.Read | src/core/recv_buffer.c:801-1019 | BufferOffset is the first offset not yet handed out, and the buffers hold exactly the bytes accepted from there on. Single mode gives one buffer; circular gives two exactly when the data wraps; multiple gives at most three. The chunk contents are unchanged. |
| QuicRecvBuffer.RecvBuffer.ReadOnlyChunk | src/core/recv_buffer.c:833-886 | Single and circular mode hand out all contiguous data, split in two only when it wraps past the chunk's end. |
| QuicRecvBuffer.FindReadChunk | src/core/recv_buffer.c:895-913 | The walk stops at the chunk holding the first unread byte, with that byte's offset in the chunk and the chunk's readable length. |
| RecvState.ReadMultipleTwoChunks | src/core/recv_buffer.c:887-974 | In multiple mode the unread contiguous data lies in at most two consecutive chunks. |
| QuicRecvBuffer.RecvBuffer.ReadMultipleChunks | src/core/recv_buffer.c:887-974 | Multiple mode hands out all unread contiguous data in at most three buffers, holding the accepted bytes. |
| QuicRecvBuffer.RecvBuffer.ReadAppOwnedChunks | src/core/recv_buffer.c:975-1018 | App-owned mode hands out one buffer per chunk, up to the provided count, holding the accepted bytes. |
| RecvState.AppOwnedCount | src/core/recv_buffer.c:998-1016 | The app-owned buffer count is the first k reaching the provided count or covering the readable data. |
| RecvState.PartiallyDrainedConsistent | src/core/recv_buffer.c:1025-1091 | A partial drain keeps the header consistent and removes exactly the drained bytes from the readable prefix. |
| QuicRecvBuffer.PartiallyDrainedKeeps | src/core/recv_buffer.c:1025-1091 | Stored bytes past the new BaseOffset stay where the invariant expects them, including after the single-mode move to the chunk start. |
| QuicRecvBuffer.RecvBuffer.PartialDrain | src/core/recv_buffer.c:1025-1091 | The header and chunks become the partially drained ones and the buffer stays valid. |
| RecvState.FullyDrainedConsistent | src/core/recv_buffer.c:1100-1178 | A full drain releases the first chunk's readable bytes and keeps the header consistent. The rest still to drain is returned; it is 0 when this was the last chunk, and otherwise one chunk fewer remains. |
| QuicRecvBuffer.FullyDrainedKeeps | src/core/recv_buffer.c:1100-1178 | The remaining chunks keep every stored byte where the invariant expects it. |
| QuicRecvBuffer.RecvBuffer.FullDrain | src/core/recv_buffer.c:1100-1178 | The header, chunks and returned rest are exactly the fully drained ones, and the buffer stays valid. |
| QuicRecvBuffer.RecvBuffer.PrepareDrain | src/core/recv_buffer.c:1187-1214 | The retired chunk is freed; outside multiple mode all references are cleared and nothing stays handed out. |
| QuicRecvBuffer.RecvBuffer.DrainStep | src/core/recv_buffer.c:1219-1260 | One loop step either ends the drain with its result, or leaves a drainable state with fewer chunks and the same final result. |
| RecvState.DrainLoopSpec | src/core/recv_buffer.c:1219-1260 | The drain loop advances BaseOffset by exactly the drained length, keeps the written ranges, and returns TRUE whenever nothing contiguous is left. In single and circular mode it returns TRUE exactly then. |
| RecvState.DrainedSpec | src/core/recv_buffer.c:1182-1263 | Drain keeps the header consistent and advances BaseOffset by exactly the drain length. Multiple mode gives back the drained bytes from ReadPendingLength; the other modes reset it to 0. No retired chunk remains. The return value is as in DrainLoopSpec. |
| QuicRecvBuffer.RecvBuffer.Drain | src/core/recv_buffer.c:1182-1263 | The header after the source's loop is exactly Drained of the old header, and the buffer stays valid. The value returned is the corrected one from Findings: TRUE exactly when nothing contiguous is left. |
| RecvState.DrainReturnsTrueWithDataLeft | src/core/recv_buffer.c:1250-1262 | A consistent multiple-mode buffer whose drain returns TRUE with 4 contiguous bytes still readable. |
| RecvState.DrainedCorrectedSpec | src/core/recv_buffer.c:1250-1262 | The corrected drain leaves the same header and returns TRUE exactly when nothing contiguous is left. |
| RecvState.ResetReadConsistent | src/core/recv_buffer.c:1267-1280 | Resetting a single-mode read keeps the header consistent and the readable prefix unchanged. |
| QuicRecvBuffer.RecvBuffer.ResetRead | src/core/recv_buffer.c:1267-1280 | Nothing stays handed out, the chunk is no longer referenced, and the buffer stays valid. |
| Worker.Worker.AddExecutionContext | src/platform/platform_worker.c:379-399 | The context is pushed at the head of the pending list; the update-poll entry is queued exactly when the pending list was empty. |
| Worker.Worker.WakeExecutionContext | src/platform/platform_worker.c:402-410 | Running is set; the wake entry is queued exactly when it was not set before. |
| Worker.Worker.UpdateExecutionContexts | src/platform/platform_worker.c:413-431 | The pending list becomes empty, and the active list is the old pending list, in order, before the old active list. With nothing pending, nothing changes. |
| Worker.Worker.RunExecutionContexts | src/platform/platform_worker.c:434-490 | The active list, the callbacks invoked and the wait time are those of RunPass and WaitTimeOf. With no contexts, nothing runs and the wait is UINT32_MAX. |
| Worker.Worker.VisitContext | src/platform/platform_worker.c:447-470 | One loop iteration takes the run pass one context further, unlinking the context in place when it is removed. |
| Worker.Worker.ComputeWaitTime | src/platform/platform_worker.c:472-489 | The wait time is WaitTimeOf the next time. |
| Worker.RunPassInvoked | src/platform/platform_worker.c:451-455 | A context's callback is invoked, in list order and once, exactly when it was ready or due. |
| Worker.RunPassKept | src/platform/platform_worker.c:456-470 | Exactly the contexts not removed stay, in their original order. A context that ran takes its callback's Ready and NextTimeUs; one that did not run keeps its time with Ready cleared. |
| Worker.RunPassNextTime | src/platform/platform_worker.c:462-467 | The pass's next time is 0 when a kept context is ready again, else the earliest NextTimeUs among the kept contexts (UINT64_MAX if none). |
| Worker.MinNext | src/platform/platform_worker.c:446-467 | The earliest next time is at most UINT64_MAX, no later than any context's, and is UINT64_MAX or one of theirs. |
| Worker.WaitTimeOf | src/platform/platform_worker.c:472-489 | 0 when a context is ready; UINT32_MAX when no time is set; otherwise the millisecond difference clamped to [1, UINT32_MAX - 1]. |
| Worker.PastTimerWaitsLongest | src/platform/platform_worker.c:476-484 | For every next time already past, by less than about 49.7 days, the 64-bit difference wraps and the wait is the longest finite one, UINT32_MAX - 1. |
| SentPacketMetadata.FrameEffects | src/core/sent_packet_metadata.c:31-68 | Each frame causes at most one effect. |
| SentPacketMetadata.FrameEffectsSpec | src/core/sent_packet_metadata.c:31-68 | The six stream frame types decrement their stream; a datagram frame with a client context is indicated lost-discarded; any other frame, or a datagram frame without a context, has no effect. |
| SentPacketMetadata.ReleaseLogOrder | src/core/sent_packet_metadata.c:30-69 | The release log has one entry per releasing frame, in frame index order, each being that frame's effect. |
| SentPacketMetadata.SentPacketMetadata.ReleaseFrames | src/core/sent_packet_metadata.c:24-70 | The loop over the frames produces exactly ReleaseLog of the first FrameCount frames. |
| SentPacketMetadata.PoolRoom | src/core/sent_packet_metadata.c:78-82 | A block of pool FrameCount - 1 has room for FrameCount frames and not for one more. |
| SentPacketMetadata.SentPacketPool.Initialize | src/core/sent_packet_metadata.c:74-89 | Every pool i gets element size (i + 1) frames plus the packet header and nothing outstanding. |
| SentPacketMetadata.SentPacketPool.GetPacketMetadata | src/core/sent_packet_metadata.c:104-117 | On success, a fresh, not-freed block from pool FrameCount - 1 with room for exactly FrameCount frames; only that pool's count grows. On failure, nothing changes. |
| SentPacketMetadata.SentPacketPool.ReturnPacketMetadata | src/core/sent_packet_metadata.c:121-136 | The block is marked freed, its frames' release log is produced, and only its pool's outstanding count drops. |

## Left out

- Allocation failure is modelled as boolean parameters (`allocSucceeds`, `rangeAllocSucceeds`). The memory itself, `QuicRecvChunkFree` and `QuicRecvBufferUninitialize` are not modelled.
- The range module `QuicRange` is not part of this model. It is abstracted as `Ranges`: a sorted sequence of disjoint intervals whose merge keeps them normalized. Its allocation failure is the `rangeAllocSucceeds` flag.
- Chunks hold their bytes as sequences of values. The model does not capture aliasing between a chunk and the buffers a read hands out.
- Integer widths: lengths and offsets are unbounded naturals. Outside app-owned mode a consistent header keeps VirtualBufferLength at most 2^31: doubling a uint32 chunk length past that wraps to 0 and the growth loop never ends (see Findings).
- QuicRecvBuffer.RecvBuffer.IncreaseVirtualBufferLength: requires a non-app-owned buffer and a new length of at most 2^31, the growth bound above.
- QuicRecvBuffer.RecvBuffer.Drain: requires a non-empty chunk list and a first range starting at 0, as the source's debug assertions do.
- QuicRecvBuffer.RecvBuffer.Drain: returns DrainedCorrected's value (TRUE exactly when nothing contiguous is left), not the source's; the two differ on the Drain input under Findings. The source's value is Drained's, stated by RecvState.DrainLoopSpec and RecvState.DrainedSpec.
- Overwritten bytes: when a write brings new offsets, the source copies all of its bytes, including already-received ones. The accepted-bytes map then takes the new bytes at every offset of the write from BaseOffset on; QUIC requires retransmitted bytes to be identical.
- Trace events, debug statistics (`EcPollCount`, `EcRunCount`) and debug assertions are not modelled.
- Worker: locks, interlocked operations and the worker thread are not modelled. Contexts are values, and only the Ready flag and next time of a context are modelled.
- Worker.Worker.RunExecutionContexts: another thread cannot set Ready during the pass, TimeNow is fixed for the pass, and a callback's effect is its given outcome.
- Worker: `US_TO_MS` is taken as division by 1000; its definition is not part of this model.
- Worker pool creation, deletion, event processing and dynamic pool pruning are not modelled.
- Sent-packet metadata: `sizeof(QUIC_SENT_FRAME_METADATA)` and `sizeof(QUIC_SENT_PACKET_METADATA)` are parameters. `QUIC_MAX_FRAMES_PER_PACKET` is 12.
- Sent-packet metadata: the numeric frame type codes are not modelled; frame types are an enumeration.
- Sent-packet metadata: the pool allocator (`CxPlatPool*`), paging and pool tags are represented only by an element size and an outstanding count. `QuicSentPacketPoolUninitialize` is not modelled.
- Sent-packet metadata: stream decrements and datagram indications are recorded as effects; their bodies are not modelled.

## Findings

| source | as written | input that shows it | evidently intended | confidence | as-written member | corrected member |
|---|---|---|---|---|---|---|
| src/core/recv_buffer.c:1250-1262 | When a full drain of the first chunk consumes exactly the drain length, the loop ends and returns TRUE, even though later chunks may hold more contiguous data. | Multiple mode, chunks of 8 and 16 bytes, offsets [0, 12) written, 8 handed out, Drain(8): the first chunk is fully drained and TRUE is returned with offsets 8 to 11 still readable. | TRUE exactly when no contiguous data is left to read. | medium; not executed | RecvState.DrainReturnsTrueWithDataLeft | RecvState.DrainedCorrectedSpec |
| src/core/recv_buffer.c:680-687 | `NewBufferLength` is a uint32 and `<<= 1` turns 2^31 into 0, so the loop never ends when the write needs more than 2^31 bytes past BaseOffset. | A circular- or multiple-mode buffer whose last chunk is 2^30 bytes, after IncreaseVirtualBufferLength(UINT32_MAX), given a write ending 2^31 + 1 bytes past BaseOffset. | The loop stops at the first doubling that holds the write, which needs the virtual length kept at most 2^31 or a wider length. | low (depends on callers raising the window past 2^31); not executed | QuicRecvBuffer.DoublingU32NeverReaches | QuicRecvBuffer.DoubledBounds |
