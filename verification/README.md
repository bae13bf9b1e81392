# Gibberish mesh: a Dafny model

Gibberish is an encrypted radio mesh. A host daemon cuts a text into sealed chunks and hands 114-byte packets to a
dongle over USB; dongles flood them over 802.15.4, deduplicate them, keep them in an SRAM ring and drain the ring to an
SD card; the receiving daemon reassembles the text, asks for lost chunks with a bitmask, and writes the text to the
clipboard. This project models that logic and proves what the pieces promise, alone and together, over whole runs.

| file | models |
|---|---|
| Bytes.dfy | integer widths, big-endian fields, bits of a word |
| Wire.dfy, PktLine.dfy, UsbFraming.dfy | packet codec, PHY frame, `#PKT#` line, USB framing and its four-state parser |
| SramRing.dfy, Records.dfy, Storage.dfy | the ring, on-card formats, the storage manager |
| Checkpoints.dfy, Recovery.dfy, CheckpointLosses.dfy, Conservation.dfy | the checkpoint slots, crash recovery, how records are forgotten, where every packet is |
| Crc7.dfy | the SD command checksum as polynomial division |
| Chunks.dfy, Sack.dfy, ChunkEngine.dfy, EngineRuns.dfy, Reassembly.dfy | fragmentation, SACK masks, the chunk engine, its budgets, end-to-end delivery |
| Nonce.dfy | durable counters and message ids |
| Dedup.dfy, TxQueue.dfy, Scheduling.dfy, Tdm.dfy, Mesh.dfy, Firmware.dfy | deduplication filter, transmit queue, slot arbiter, flooding, and the firmware steps over the live objects |
| PeerTable.dfy, Clipboard.dfy | the peer table, clipboard echo suppression |
| EndToEnd.dfy | hosts and dongles together: fragments and SACKs over more than one hop |

Objects that the program updates in place are classes here; their methods are proved equal to specification functions on
plain values, and the theorems over runs are about those functions.

Inputs stand for what the code reads from outside: the clock is an argument in milliseconds; the outcome of every device
write, file replacement, clipboard write and radio transmission is an argument; a hash map's iteration order is an
argument wherever the result depends on it; the CRC-32, the key derivation, the cipher, the clipboard hash and the UTF-8
test are arbitrary functions. Of the cipher, theorems use that a chunk opens to what was sealed under the same
coordinates, and those on foreign and relayed chunks also that it opens under no others. Two clock readings within one operation are one argument.

Where the code differs from what its comments or documents promise, the model follows the code:

- recovery reads the two checkpoints only and never scans the log tail, so up to 16 confirmed records are forgotten;
- a checkpoint-write error is ignored, so that more can be: `Recovery.RecoveryTheorem` says exactly when the 16-record
  bound holds, `CheckpointLosses.CheckpointErrorExactly` for a single write, and one error and one power loss that both
  leave garbage cost the whole log (`CheckpointLosses.BothSlotsLost`);
- a start-up that cannot read the newest checkpoint silently counts from an older one, so that a later recovery can
  yield more than was counted (`CheckpointLosses.StaleStart`);
- texts of more than 255 chunks pass the limit of 800 but are cut off, and trailing NULs are lost (`Chunks.SurvivingTexts`);
- a packet announcing more chunks than the first one of its message can index out of range (`EngineRuns.PanicsExactly`,
  `EngineRuns.MismatchedTotalsPanic`);
- a failed counter reservation leaves the raised limit in memory, and the daemon only logs the error and goes on, so
  that a restart can issue a counter again (`Nonce.RestartRepeats`, `Nonce.CounterIssuedTwice`); `Nonce.DurableCounters`
  assumes that such a failure ends the process;
- a failed clipboard write causes one more broadcast (`Clipboard.FailedWriteEchoes`);
- a relay puts its own address into the frame, and the receiving host derives the chunk's key from that address, so a
  relayed fragment opens nowhere (`EndToEnd.RelayedFragment`, `EndToEnd.RelaysDeliverNothing`): texts reach the
  originator's direct neighbours only, although fragments travel seven hops (`Mesh.LineDelivers`);
- a SACK carries the deduplication key of its message's chunk 0, so the dongle that originated the message drops it
  before its host sees it (`EndToEnd.SackSwallowed`); `Reassembly.SackRecovery` is about the two hosts.

## Model

| member | source | states |
|---|---|---|
| Recovery.RecoveryTheorem | crates/gibberish-storage/src/fat32_container.rs:190-319 | Every run of pushes, flushes, write errors, power losses between or inside device writes (checkpoint sector left old, new or undecodable) and start-ups whose checkpoint reads may fail, from a card without checkpoints. The books name the payload under each sequence number on the card; a running manager has LBA = 10 + sequence, recovery yields LBA = 10 + s, and every sector below holds a valid record with sequence L - 9, unless a record write ever left garbage below an unread checkpoint. s <= c if and only if no checkpoint past c went unread; c <= s + 16 if and only if the last checkpoint due arrived, or only that one did not and no record followed it, or an unread one is that close; in particular as long as no checkpoint write was reported as failed. |
| Recovery.RecoveryBound | crates/gibberish-storage/src/fat32_container.rs:190-319 | With successful start-up reads and no reported checkpoint error: s <= c <= s + 16, LBA = 10 + s, and all c confirmed records are on the card. |
| Checkpoints.NextCheckpoint | crates/gibberish-storage/src/fat32_container.rs:299-310 | A checkpoint write goes to the slot not holding the previous checkpoint: if its data arrive, it becomes the newest; otherwise the previous one stays the newest, or, if that was missing already, nothing newer appears. |
| Checkpoints.OwnedStep | crates/gibberish-storage/src/fat32_container.rs:299-310 | The same for a manager that counts from an older checkpoint while an unread newer one still fills a slot. |
| Checkpoints.RecoversNewest | crates/gibberish-storage/src/fat32_container.rs:211-242 | Recovery picks the newest valid checkpoint of the two slots, restores LBA = 10 + sequence, and reports one torn write if and only if exactly one slot holds no checkpoint. |
| CheckpointLosses.CheckpointErrorExactly | crates/gibberish-storage/src/fat32_container.rs:309-309 | Because a reported checkpoint-write error is ignored: with one more record after a checkpoint write that power loss does not cut off, the 16-record bound holds if and only if the write completed, or reported an error although its data had arrived, or an unread checkpoint is close enough. |
| CheckpointLosses.BothSlotsLost | crates/gibberish-storage/src/fat32_container.rs:299-310 | A checkpoint write that reports an error and leaves garbage, followed by one that power loss leaves as garbage, destroys both checkpoints: recovery yields sequence 0 and LBA 10 however many records were confirmed. |
| CheckpointLosses.AllForgotten | crates/gibberish-storage/src/fat32_container.rs:299-310 | A run from a fresh card that ends this way: 48 records confirmed, none recovered. |
| CheckpointLosses.HoleExactly | crates/gibberish-storage/src/fat32_container.rs:194-209 | A record write cut off by power loss leaves an invalid sector below the recovered LBA if and only if it left garbage while a checkpoint past the manager's count was unread. |
| CheckpointLosses.StaleStart | crates/gibberish-storage/src/fat32_container.rs:194-209 | From every reachable card with a checkpoint: a start-up that reads only the other slot, then such a write, make recovery yield s > c over an invalid sector. |
| Checkpoints.BootNeedsNewest | crates/gibberish-storage/src/fat32_container.rs:194-209 | Start-up finds the newest checkpoint if and only if its slot can be read. |
| Recovery.LbaSaturation | crates/gibberish-storage/src/fat32_container.rs:291-295 | LBA = 10 + sequence is kept by a record write if and only if the LBA has not reached the last 32-bit value. |
| Conservation.FlushConserves | crates/gibberish-storage/src/fat32_container.rs:268-319 | A flush moves at most two packets, oldest first: written payloads followed by ring payloads are the payloads the ring held before. |
| Conservation.TurnConserves | crates/gibberish-storage/src/fat32_container.rs:276-317 | Each loop turn moves the front packet or nothing; a failed data write leaves the ring intact and latches RAM-only mode, in which nothing changes any more. |
| Conservation.RunConserves | crates/gibberish-storage/src/sram_ring.rs:57-103 | Over every run, whatever fails: since power-on, pushed = written + held + evicted as multisets, and the drop counter equals the evictions until it saturates. |
| Conservation.FlushesDrain | crates/gibberish-storage/src/fat32_container.rs:275-296 | Flushes whose writes succeed drain the ring to the card in order: half as many flushes as there are packets leave it empty with every payload written. |
| Conservation.WrittenOnCard | crates/gibberish-storage/src/fat32_container.rs:276-296 | Over every run, what was written since the last power-on is on the card in order, right below the manager's sequence. |
| Conservation.RunOrdered | crates/gibberish-storage/src/sram_ring.rs:57-84 | The ring is a queue over every run, whatever fails: since power-on it holds the last pushes in order, and the earlier ones are an interleaving of what was written and what was evicted, both in the order of pushing; with nothing evicted, written followed by held is exactly what was pushed. |
| Conservation.RunInLog | crates/gibberish-storage/src/fat32_container.rs:220-295 | In every run from any card whatever, with any faults: records go to LBA 10 and above, and no sector other than 1, 2 and those ever changes. |
| Storage.DynamicStorageManager.FlushFromSram | crates/gibberish-storage/src/fat32_container.rs:268-319 | The imperative flush over device, manager fields and ring does exactly what the specification function FlushTick says, including every fault. |
| Storage.DynamicStorageManager.FlushTurn | crates/gibberish-storage/src/fat32_container.rs:276-317 | One loop turn equals FlushOne on the whole machine state, and stops the loop exactly when further turns would do nothing. |
| Storage.DynamicStorageManager.Checkpoint | crates/gibberish-storage/src/fat32_container.rs:299-310 | The periodic checkpoint equals WriteCheckpoint: every 16 records, alternating LBA 1 and 2. |
| Storage.DynamicStorageManager.WithDevice | crates/gibberish-storage/src/fat32_container.rs:190-243 | The start-up branches over the two reads: RAM-only if and only if both fail; otherwise no readable checkpoint is newer than the sequence taken, and sequence and LBA are those of a readable checkpoint, or 0 and 10. |
| Storage.DynamicStorageManager.RamOnly | crates/gibberish-storage/src/fat32_container.rs:179-187 | Start-up without a device. |
| Storage.BlockDevice.WriteBlock | crates/gibberish-storage/src/fat32_container.rs:145-148 | One device write under a scripted fault leaves the sector new, old or garbage accordingly. |
| Records.RecordDecodes | crates/gibberish-storage/src/fat32_container.rs:36-82 | A committed record reads back, for any checksum function. |
| Records.RecordAcceptance | crates/gibberish-storage/src/fat32_container.rs:52-82 | The bytes accepted as record r are exactly the encodings of r with any bytes in the length field, which is checksummed but never checked. |
| Records.CheckpointDecodes | crates/gibberish-storage/src/fat32_container.rs:98-141 | A completed checkpoint sector reads back, for any checksum function. |
| Records.CheckpointAcceptance | crates/gibberish-storage/src/fat32_container.rs:113-141 | The sectors accepted as checkpoint c are exactly those whose first 40 bytes are those of its encoding and whose last two are the commit marker. |
| Records.CheckpointLayout | crates/gibberish-storage/src/fat32_container.rs:98-111 | Magic, the four 64-bit fields, checksum and commit marker lie big-endian at their offsets. |
| Records.SerializeRecord | crates/gibberish-storage/src/fat32_container.rs:36-50 | The buffer-filling serializer writes the encoding into the first 116 bytes and leaves the rest alone. |
| Records.SerializeCheckpoint | crates/gibberish-storage/src/fat32_container.rs:98-111 | The buffer-filling serializer writes exactly the 512-byte checkpoint encoding. |
| SramRing.SramRingBuffer.PushPacket | crates/gibberish-storage/src/sram_ring.rs:57-72 | The circular buffer refines a bounded FIFO of 256: push appends, or evicts the oldest, returns it and counts it. |
| SramRing.SramRingBuffer.PopPacket | crates/gibberish-storage/src/sram_ring.rs:75-84 | Pop removes and returns the oldest packet. |
| SramRing.SramRingBuffer.Peek | crates/gibberish-storage/src/sram_ring.rs:87-93 | Peek returns the oldest packet. |
| SramRing.SramRingBuffer.Clear | crates/gibberish-storage/src/sram_ring.rs:96-103 | Clear empties the ring and keeps the drop counter. |
| Crc7.Crc7IsRemainder | crates/gibberish-storage/src/fat32_container.rs:151-164 | A byte is the loop's result if and only if its stop bit is set and its upper seven bits are the remainder of x^7 M(x) by x^7 + x^3 + 1 (section 4.5 of the SD Physical Layer Simplified Specification). |
| Crc7.RemainderUnique | crates/gibberish-storage/src/fat32_container.rs:150-150 | Quotient and remainder of that division are unique. |
| Crc7.RegisterLinear | crates/gibberish-storage/src/fat32_container.rs:151-164 | Before the stop bit the checksum is XOR-linear on messages of equal length. |
| Crc7.BurstDetected | crates/gibberish-storage/src/fat32_container.rs:151-164 | Equal-length messages of any length that differ only inside seven consecutive bits get different checksums. |
| Crc7.Crc7 | crates/gibberish-storage/src/fat32_container.rs:151-164 | The nested bit loop computes the shift register over the bits in transmission order, with the stop bit. |
| Reassembly.SackRecovery | apps/gibberish-daemon/src/chunk.rs:231-312 | A due poll sends a SACK for an incomplete message; the caching sender, given it over the wire after up to five hops, answers exactly the missing packets in ascending order; ingesting the answer in any order among tame traffic delivers the original text once. |
| Reassembly.FragmentThenReassemble | apps/gibberish-daemon/src/chunk.rs:48-217 | For every UTF-8 text of at most 255 chunks not ending in NUL, ingesting all its packets in any order with duplicates and other tame traffic (after the first packet also under other announced chunk counts) delivers exactly the text, once. |
| Reassembly.ProgressStep | apps/gibberish-daemon/src/chunk.rs:112-217 | Every event gathers exactly the chunk it supplies, and the text is returned exactly at the packet supplying the last missing chunk. |
| Reassembly.RunProgress | apps/gibberish-daemon/src/chunk.rs:112-217 | Over any tame run the message is delivered once if its last missing chunk arrives and not at all otherwise. |
| Reassembly.SackListsMissing | apps/gibberish-daemon/src/chunk.rs:284-293 | The SACK payload names the asking node, the sender, base 0 and exactly the missing chunks, in ascending order. |
| Reassembly.SackAnswered | apps/gibberish-daemon/src/chunk.rs:231-249 | The cached sender answers a SACK, also after up to five hops, with the packets it names. |
| Reassembly.SackTravels | apps/gibberish-daemon/src/chunk.rs:295-303 | A SACK travels exactly five hops, flagged as a SACK and not as telemetry, under its message's tag, id and chunk count. |
| Reassembly.Spared | apps/gibberish-daemon/src/chunk.rs:139-166 | A condition a caller can test under which a message in flight is neither timed out nor evicted by a packet. |
| EngineRuns.ReachableSound | apps/gibberish-daemon/src/chunk.rs:118-216 | In every reachable state: at most 16 in flight, at most 2 per sender, in-flight and completed disjoint, every in-flight message has a chunk received and one missing, at most 3 SACKs each. |
| EngineRuns.EvictMakesRoom | apps/gibberish-daemon/src/chunk.rs:139-166 | Eviction always makes room for the sender and overall. |
| EngineRuns.VictimIsOldest | apps/gibberish-daemon/src/chunk.rs:144-163 | Over runs: what a received packet pushes out, apart from messages that have timed out, is a message of the same sender opened no later than those of that sender that stay, when the sender has two, or one opened no later than all that stay, when sixteen are in flight. |
| EngineRuns.DeliverySpacing | apps/gibberish-daemon/src/chunk.rs:134-137 | A message is delivered again only at least 60 s after its previous completion. |
| EngineRuns.CompletedRemembered | apps/gibberish-daemon/src/chunk.rs:208-209 | A completed entry stays until a minute after the completion. |
| EngineRuns.CompletedExactly | apps/gibberish-daemon/src/chunk.rs:326-334 | After every received packet a message counts as completed if and only if it was last completed less than 60 s before. |
| EngineRuns.InFlightFresh | apps/gibberish-daemon/src/chunk.rs:326-334 | After every received packet, every message in flight got its last new chunk less than 10 s before. |
| EngineRuns.OutboxExactly | apps/gibberish-daemon/src/chunk.rs:220-227 | After every received packet the outbox holds, for each message id, the packets last cached under it if and only if that is less than a minute ago. |
| EngineRuns.AnswersRecent | apps/gibberish-daemon/src/chunk.rs:231-249 | Right after a received packet, only a SACK is answered, only for a message cached less than a minute ago, and only with packets of that message. |
| EngineRuns.SackBudget | apps/gibberish-daemon/src/chunk.rs:274-276 | One in-flight entry produces at most 3 SACKs over its whole life, from the chunk that created it on. |
| EngineRuns.SackPacing | apps/gibberish-daemon/src/chunk.rs:264-306 | Over runs, a poll sends a SACK for a message in flight if and only if 300 ms have passed since its last new chunk, be it the one that created the entry, 500 ms since the last SACK sent or overheard for it, if any, and fewer than three were sent. |
| EngineRuns.PanicsExactly | apps/gibberish-daemon/src/chunk.rs:191-191 | An authentic packet indexes out of range if and only if its message is in flight with no more chunks announced than the packet's index. |
| EngineRuns.MismatchedTotalsPanic | apps/gibberish-daemon/src/chunk.rs:191-191 | A two-packet run that does so, for any two authentic packets of one message of which the second announces, and carries, a chunk the first had no room for. |
| EngineRuns.UniformTotalsNeverPanic | apps/gibberish-daemon/src/chunk.rs:128-191 | No packet indexes out of range while all packets of a message announce the same chunk count. |
| EngineRuns.RefusalsExactly | apps/gibberish-daemon/src/chunk.rs:118-179 | A packet is rejected as malformed if and only if its chunk count is 0 or its index is not below it, and as not authentic if and only if it is well-formed, not a duplicate of a completed message and does not open; a rejected packet is stored nowhere. |
| EngineRuns.ForeignChunkRefused | apps/gibberish-daemon/src/chunk.rs:168-179 | A payload that opens only under the coordinates it was sealed with is refused under any other chunk index, message id or sender, and no entry takes it. |
| ChunkEngine.Oldest | apps/gibberish-daemon/src/chunk.rs:144-163 | The eviction victim is a candidate that was first received no later than any other. |
| ChunkEngine.DueKeysMeaning | apps/gibberish-daemon/src/chunk.rs:261-282 | A poll asks for exactly the in-flight messages whose SACK is due. |
| ChunkEngine.ChunkEngineState.IngestPacket | apps/gibberish-daemon/src/chunk.rs:112-217 | The object's three maps change, and the result is, as the specification function Ingest says. |
| ChunkEngine.ChunkEngineState.EvictFor | apps/gibberish-daemon/src/chunk.rs:139-166 | Per-sender and then global eviction on the in-flight map. |
| ChunkEngine.ChunkEngineState.AcceptChunk | apps/gibberish-daemon/src/chunk.rs:181-216 | Storing a chunk, completing and assembling a message. |
| ChunkEngine.ChunkEngineState.CheckPendingSacks | apps/gibberish-daemon/src/chunk.rs:253-312 | The loop over the map sends the SACKs of the due messages in the map's order and updates exactly their timers. |
| ChunkEngine.ChunkEngineState.BuildSack | apps/gibberish-daemon/src/chunk.rs:285-303 | The gap-marking loop builds the SACK packet. |
| ChunkEngine.ChunkEngineState.AnswerSack | apps/gibberish-daemon/src/chunk.rs:231-249 | The retransmission loop returns the cached packets the SACK names. |
| ChunkEngine.ChunkEngineState.SuppressSack | apps/gibberish-daemon/src/chunk.rs:316-323 | Overhearing a SACK restarts the timers of that message id. |
| ChunkEngine.ChunkEngineState.Cache | apps/gibberish-daemon/src/chunk.rs:220-227 | Outbound packets are cached under their message id. |
| ChunkEngine.ChunkEngineState.PurgeExpired | apps/gibberish-daemon/src/chunk.rs:326-334 | Time-outs of the three maps. |
| Chunks.SurvivingTexts | apps/gibberish-daemon/src/chunk.rs:60-64 | Cutting up and reassembling gives the text back if and only if it has at most 255 chunks and does not end in NUL (the chunk count is cast to one byte, padding is stripped). |
| Chunks.AssemblePieces | apps/gibberish-daemon/src/chunk.rs:198-206 | Reassembling the first n pieces gives the first n chunks of the text without trailing NULs. |
| Chunks.FragmentAndEncrypt | apps/gibberish-daemon/src/chunk.rs:48-108 | The fragmentation loop: empty and oversized texts, one allocated counter, and one sealed packet per chunk. |
| Chunks.AssembleChunks | apps/gibberish-daemon/src/chunk.rs:198-206 | The concatenation and NUL-stripping loops compute Assemble. |
| Chunks.FragmentTravels | apps/gibberish-daemon/src/chunk.rs:84-105 | Every fragment travels exactly seven hops, flagged as clipboard and neither as telemetry nor as a SACK, with its tag, id, index and true chunk count modulo 256, its piece sealed under its own coordinates. |
| Chunks.CoordinatesInjective | apps/gibberish-daemon/src/chunk.rs:75-89 | Two chunks are sealed under equal coordinates if and only if sender, message id and index agree (for different senders: given that subkeys differ). |
| Chunks.CoordinatesNeverRepeat | apps/gibberish-daemon/src/chunk.rs:66-89 | Over every run in which a failed reservation ends the process, no two chunks of one message, of messages of one node less than 65536 counters apart, or of different nodes are sealed under the same coordinates. |
| Sack.MarksAreASet | crates/gibberish-protocol/src/frame.rs:182-211 | Marking and unmarking act on the mask as on a set of chunk indices, within the 512-chunk window. |
| Sack.MissingListMeaning | crates/gibberish-protocol/src/frame.rs:229-241 | The visited indices are exactly the missing ones, in ascending order. |
| Sack.ForEachMissing | crates/gibberish-protocol/src/frame.rs:229-241 | The byte-by-byte visit, skipping clear bytes, produces that list. |
| Sack.MissingCount | crates/gibberish-protocol/src/frame.rs:214-220 | The population count is the number of missing chunks. |
| Sack.SackDecodes | crates/gibberish-protocol/src/frame.rs:243-263 | The 96-byte SACK payload round-trips. |
| Sack.SackLayout | crates/gibberish-protocol/src/frame.rs:243-249 | Receiver, sender, base chunk and bitmask lie big-endian at their offsets, the rest is zero. |
| Sack.SackPayload.Mark | crates/gibberish-protocol/src/frame.rs:182-189 | In-place marking. |
| Sack.SackPayload.Unmark | crates/gibberish-protocol/src/frame.rs:192-199 | In-place unmarking. |
| Mesh.FloodingBounded | apps/gibberish-firmware/src/main.rs:419-464 | In any run of any network in which no node inserts more than 1025 keys, transmissions of a packet are at most its originations plus the number of nodes. |
| Mesh.RelayedAgain | apps/gibberish-firmware/src/main.rs:419-464 | 1025 is sharp: with its 1026th insert a node can relay a packet a second time. |
| Mesh.NodeBound | apps/gibberish-firmware/src/main.rs:419-464 | Within that limit every node schedules a relay of a packet at most once and never sends more copies than it was given plus that one. |
| Mesh.CopiesAreFaithful | crates/gibberish-protocol/src/frame.rs:140-148 | Every transmitted packet is, but for its hop fields, one that some node originated, with the same TTL + hop count. |
| Mesh.FiltersHoldOriginated | apps/gibberish-firmware/src/main.rs:419-425 | In every run, every key that any filter was given is that of a packet some node was given to originate: telemetry pollutes no filter. |
| Mesh.TelemetryStaysLocal | apps/gibberish-firmware/src/main.rs:364-417 | In every run no node relays telemetry, and every telemetry packet a node sends or holds was submitted at that node. |
| Mesh.LineDelivers | apps/gibberish-firmware/src/main.rs:419-464 | Over a line of fresh nodes, each getting 13 mesh slots, node n sends the packet on with n hops counted if and only if the TTL covers n links, each of quality at least 30, and the key is not (0, 0); node n's host is handed it if and only if node n - 1 sent it and the key is not (0, 0). |
| Mesh.OriginTurn | apps/gibberish-firmware/src/main.rs:254-275 | A fresh node sends its host's packet in the third mesh slot if the radio accepts it then, and never otherwise. |
| Mesh.RelayTurn | apps/gibberish-firmware/src/main.rs:454-463 | A fresh node relays the first packet it hears in the first mesh slot by which its relay delay is over, if the tag is one of the two, it is not telemetry, the key is not (0, 0), the link is good enough, the TTL is not used up and the radio accepts it then, and never otherwise. |
| Mesh.TelemetryTurn | apps/gibberish-firmware/src/main.rs:327-329 | A fresh node sends its telemetry in the first slot by which the jitter, clamped to 15..90 ms, is over, and remembers nothing of it. |
| Mesh.DuplicateCancels | apps/gibberish-firmware/src/main.rs:420-424 | Hearing a known packet again cancels one waiting packet under its key, if there is one, and changes nothing else. |
| Mesh.OverheardNotSent | apps/gibberish-firmware/src/main.rs:420-431 | A node that overhears a packet while its own copy waits never sends that copy, over any further run in which its host does not originate the packet (up to 1025 inserts). |
| Mesh.SeenNeverRelayed | apps/gibberish-firmware/src/main.rs:420-424 | With at most 1024 keys inserted, what a node originated or already heard it does not relay. |
| Mesh.RelayJitterRange | crates/gibberish-protocol/src/frame.rs:42-46 | Relay delays lie in 15..64 ms and a stronger link never has the larger base delay. |
| Mesh.RelayJitterSpreads | crates/gibberish-protocol/src/frame.rs:42-46 | The base falls from 50 ms on the worst link to 15 ms on the best, links eight apart get different bases, and the fifteen random draws fifteen different delays. |
| Firmware.FirmwareNode.OnMeshFrame | apps/gibberish-firmware/src/main.rs:333-464 | The receive step over the live filter, queue, ring and peer table equals Hear; a packet goes to the ring and, as its `#PKT#` line, to the host exactly when it is new; every tagged frame of another node, also telemetry and duplicates, counts in the peer table under its effective source. |
| Firmware.FirmwareNode.OnHostFrame | apps/gibberish-firmware/src/main.rs:512-525 | The inject step over the live objects equals Inject. |
| Firmware.FirmwareNode.OnMeshSlot | apps/gibberish-firmware/src/main.rs:254-275 | The transmit step of a mesh slot equals Serve. |
| Firmware.FirmwareNode.OnTelemetryDue | apps/gibberish-firmware/src/main.rs:327-329 | Telemetry goes through the yielding scheduler. |
| Firmware.PeersAreContacts | apps/gibberish-firmware/src/main.rs:343-356 | After any frames the dongle's peer table is the least-recently-contacted table of the contacts among them. |
| Firmware.PeersWereHeard | apps/gibberish-firmware/src/main.rs:343-356 | The peer table never lists the node itself or source 0, only nodes named by some frame with a valid tag, in the PHY header or else in a debug telemetry payload. |
| EndToEnd.RelayedFragment | apps/gibberish-firmware/src/radio/ieee802154.rs:104-118 | A fragment transmitted by any station after up to seven hops reaches another station's host under the transmitting station's id, and opens there if and only if that station is the originator's own: relays stamp their own address. |
| EndToEnd.RelaysDeliverNothing | apps/gibberish-daemon/src/chunk.rs:168-179 | So chunks sealed by one node and filed under another id deliver nothing, over any run of the engine. |
| EndToEnd.SackIsNew | apps/gibberish-firmware/src/main.rs:419-425 | A SACK after any of its hops is new to a dongle, and handed to its host, if and only if the filter does not report chunk 0 of its message. |
| EndToEnd.SackSwallowed | apps/gibberish-firmware/src/main.rs:419-425 | In every run, the dongle that was given a message to originate swallows every SACK for it while its filter has taken at most 1024 keys. |
| Scheduling.DelayBound | apps/gibberish-firmware/src/radio/ieee802154.rs:160-248 | Every accepted packet is sent, cancelled or evicted within 58 turns of the 5 ms firmware loop, whatever else happens and however the desktop mode is switched. |
| Scheduling.GoneAfter46Ticks | apps/gibberish-firmware/src/radio/ieee802154.rs:160-248 | A waiting packet is gone after 46 mesh ticks, by the rank ceil(remaining / 5) + 4 * position. |
| Scheduling.LeavesOnce | apps/gibberish-firmware/src/radio/ieee802154.rs:160-248 | Each accepted packet is exactly one of waiting, sent, cancelled and evicted; packets are sent in order of acceptance. |
| Scheduling.JitterWaits | apps/gibberish-firmware/src/radio/ieee802154.rs:160-218 | A packet accepted with jitter j into an empty queue is not sent within fewer than ceil(max(15, min(j, 90)) / 5) mesh ticks, whatever else happens. |
| Scheduling.SentOnTime | apps/gibberish-firmware/src/radio/ieee802154.rs:206-247 | With nothing else going on it is sent at exactly that tick. |
| Scheduling.SendSpacing | apps/gibberish-firmware/src/radio/ieee802154.rs:206-247 | Two sends are at least 3 mesh ticks apart, and at least 4 if the queue was not empty after the first. |
| Scheduling.ReachableAccounted | apps/gibberish-firmware/src/radio/ieee802154.rs:160-248 | The same in every state reachable from the empty queue. |
| Scheduling.TelemetryYields | apps/gibberish-firmware/src/radio/ieee802154.rs:192-203 | Telemetry is refused exactly while a user packet waits, is otherwise queued last, and pushes out nothing but telemetry. |
| Scheduling.TakeShape | apps/gibberish-firmware/src/radio/ieee802154.rs:234-247 | Taking skips the leading holes and returns the first live packet, or empties the queue. |
| Scheduling.UntagStep | apps/gibberish-firmware/src/radio/ieee802154.rs:160-247 | Numbering packets for the proof changes nothing: each step projects to the firmware's operation. |
| TxQueue.BackoffController.ScheduleTx | apps/gibberish-firmware/src/radio/ieee802154.rs:160-176 | The circular array refines the queue: append with clamped jitter, or replace the oldest. |
| TxQueue.BackoffController.ScheduleTelemetryTx | apps/gibberish-firmware/src/radio/ieee802154.rs:192-203 | The scan for user traffic and the conditional scheduling. |
| TxQueue.BackoffController.OnOverhear | apps/gibberish-firmware/src/radio/ieee802154.rs:221-232 | Cancels the first live packet with the given key, leaving a hole. |
| TxQueue.BackoffController.Take | apps/gibberish-firmware/src/radio/ieee802154.rs:234-247 | The hole-skipping loop returns the first live packet. |
| TxQueue.BackoffController.TickBackoff | apps/gibberish-firmware/src/radio/ieee802154.rs:206-218 | The backoff timer. |
| Tdm.MeshShare | apps/gibberish-firmware/src/radio/coex.rs:47-67 | Any 58 consecutive turns contain at least 46 mesh slots, from any phase and with any mode switches. |
| Tdm.MeshShareTight | apps/gibberish-firmware/src/radio/coex.rs:47-67 | 57 turns can contain only 45. |
| Tdm.CompanionShare | apps/gibberish-firmware/src/radio/coex.rs:47-67 | Out of desktop mode any 40 consecutive turns hold exactly 34 mesh and six companion slots. |
| Tdm.TdmArbiter.AdvanceClock | apps/gibberish-firmware/src/radio/coex.rs:47-67 | The arbiter object follows Advance. |
| Dedup.NoFalseNegatives | apps/gibberish-firmware/src/radio/dedup.rs:45-88 | Every key of the window, the last 513 to 1024 inserts depending on the epoch, is contained, whatever the hashes; so is any key with at most 512 inserts after its own. |
| Dedup.NothingForgotten | apps/gibberish-firmware/src/radio/dedup.rs:45-88 | The first 1024 inserts are all contained. |
| Dedup.FirstForgotten | apps/gibberish-firmware/src/radio/dedup.rs:73-78 | The 1025th insert can make the filter forget the first. |
| Dedup.UnusedFilter | apps/gibberish-firmware/src/radio/dedup.rs:20-28 | An unused filter admits every key but (0, 0), the filler of its recent list. |
| Dedup.SiblingsHashApart | apps/gibberish-firmware/src/radio/dedup.rs:31-42 | Two different keys that share the message id or the chunk index differ in the first hash, and in the second unless a zero was replaced by 1, because every mixing step has an inverse; the second hash is never 0. |
| Dedup.SiblingSeen | apps/gibberish-firmware/src/radio/dedup.rs:45-65 | What this gives at the lookup: a filter that has taken one chunk of a message only reports another one if and only if all seven bits of the other, which start from another first hash, are among the seven of the one. |
| Dedup.TwoChunksBothNew | apps/gibberish-firmware/src/radio/dedup.rs:45-65 | A fresh filter that has taken chunk 0 of message 1 does not report chunk 1 of it. |
| Dedup.WindowBits | apps/gibberish-firmware/src/radio/dedup.rs:73-78 | The two epochs together hold exactly the bits of the last 512 + (inserts in the active epoch) keys. |
| Dedup.SlidingBloomFilter.Lookup | apps/gibberish-firmware/src/radio/dedup.rs:45-65 | The two lookup loops over the arrays answer Contains of the insert history. |
| Dedup.SlidingBloomFilter.Insert | apps/gibberish-firmware/src/radio/dedup.rs:68-88 | Insertion through word/bit packing and epoch turnover appends to the history. |
| Wire.PacketDecodes | crates/gibberish-protocol/src/frame.rs:120-134 | Decoding undoes encoding on every packet. |
| Wire.PacketEncodes | crates/gibberish-protocol/src/frame.rs:120-134 | Encoding undoes decoding on every 114-byte buffer. |
| Wire.PhyFrameParses | apps/gibberish-firmware/src/radio/ieee802154.rs:251-320 | A transmitted frame parses back if and only if its tag is valid, whatever the two FCS bytes become. |
| Wire.FrameReception | apps/gibberish-firmware/src/radio/ieee802154.rs:89-125 | Every other station receives exactly the packet under the sender's node id if it carries one of the two network tags; a packet with another tag, and the sender's own echo, are ignored. |
| Wire.TtlBudget | crates/gibberish-protocol/src/frame.rs:140-148 | A hop keeps TTL + hop count if and only if the hop counter is not saturated. |
| Wire.HopsExactly | crates/gibberish-protocol/src/frame.rs:140-148 | A packet travels exactly as many hops as its TTL says, with its content untouched and the hops counted. |
| Wire.WireLayout | crates/gibberish-protocol/src/frame.rs:79-87 | Tag, message id, chunk index, chunk count, TTL, hop count, flags and payload lie big-endian at their offsets. |
| Wire.FrameLayout | apps/gibberish-firmware/src/radio/ieee802154.rs:251-271 | The MAC header is that of an IEEE 802.15.4 data frame with PAN id compression and a short destination, to everybody in every PAN, with the sequence number and the sender's MAC tail. |
| Bytes.BigEndianDigit | crates/gibberish-protocol/src/frame.rs:80-86 | Byte i of a big-endian field is the digit of weight 256^(width - 1 - i). |
| Wire.SerializePayload | crates/gibberish-protocol/src/frame.rs:120-125 | The buffer-filling serializer writes the encoding. |
| Wire.AssemblePhyFrame | apps/gibberish-firmware/src/radio/ieee802154.rs:251-286 | The buffer-filling frame assembly writes MAC header, packet and two dummy bytes. |
| PktLine.PktLineParses | apps/gibberish-daemon/src/transport.rs:137-168 | Parsing the dongle's `#PKT#` line returns the same source id and packet. |
| PktLine.LineAcceptance | apps/gibberish-daemon/src/transport.rs:137-168 | A line is accepted as a packet from a source if and only if it starts with the prefix and its two tokens are those of the printed line, up to letter case and a plus sign read as a leading zero of a number. |
| PktLine.HexBuffer | apps/gibberish-firmware/src/main.rs:441-448 | The hex loop prints two upper-case digits per byte. |
| PktLine.ParsePktLine | apps/gibberish-daemon/src/transport.rs:137-168 | The line parser and its fill loop compute ParsePktLineSpec, including every rejection. |
| UsbFraming.ParserRefines | apps/gibberish-firmware/src/main.rs:481-531 | The four-state parser delivers exactly "find the first AA 55 72, take the next 114 bytes, repeat". |
| UsbFraming.RunConcat | apps/gibberish-firmware/src/main.rs:483-483 | How the stream is cut into reads does not matter. |
| UsbFraming.TrafficDelivered | apps/gibberish-daemon/src/transport.rs:72-83 | Framed packets among header-free noise arrive as exactly those packets, whatever their payloads contain. |
| UsbFraming.SendPacket | apps/gibberish-daemon/src/transport.rs:72-83 | The host writes the header and the encoding. |
| UsbFraming.UsbReceiver.ReadByte | apps/gibberish-firmware/src/main.rs:484-530 | The parser variables follow the step function. |
| UsbFraming.UsbReceiver.Read | apps/gibberish-firmware/src/main.rs:483-531 | The drain loop yields the frames of the chunk. |
| Nonce.DurableCounters | apps/gibberish-daemon/src/nonce.rs:27-124 | Over any crashes and restarts in which a failed reservation ends the process, every issued counter lies below the persisted reservation and counters strictly increase across processes. |
| Nonce.CountersIncrease | apps/gibberish-daemon/src/nonce.rs:27-124 | The same increase for every run whose processes end with their counter covered by the state file. |
| Nonce.RestartRepeats | apps/gibberish-daemon/src/nonce.rs:116-119 | The first counter after a restart repeats an earlier one if and only if the process had gone beyond the persisted reservation, which the limit raised before a failing write allows. |
| Nonce.CounterIssuedTwice | apps/gibberish-daemon/src/nonce.rs:115-124 | A run that repeats one: 1000 allocations, a failed reservation, one more allocation, a restart. |
| Nonce.EpochsIncrease | apps/gibberish-daemon/src/nonce.rs:55-61 | Restart epochs strictly increase until the 32-bit epoch saturates. |
| Nonce.ReservationCost | apps/gibberish-daemon/src/nonce.rs:115-124 | Over every run, whatever fails: at most one allocation in a thousand writes the state file, and every start skips at most a thousand counters. |
| Nonce.MsgIdCollision | apps/gibberish-daemon/src/chunk.rs:71-73 | Two message ids coincide, of one node or two, exactly when the upper halves of the node ids and the lower halves of the counters agree. |
| Nonce.MessageIdsDistinct | apps/gibberish-daemon/src/chunk.rs:71-73 | Over any such run, messages whose counters are less than 65536 apart have distinct ids. |
| Nonce.NonceManager.New | apps/gibberish-daemon/src/nonce.rs:27-77 | Opening reads the file, picks the epoch and commits the first block. |
| Nonce.NonceManager.Allocate | apps/gibberish-daemon/src/nonce.rs:115-124 | Allocation, with the limit raised before the write that may fail. |
| Nonce.NonceManager.PersistBlockReservation | apps/gibberish-daemon/src/nonce.rs:80-111 | The atomic replacement leaves the old or the new file. |
| PeerTable.TableIsExactLru | crates/gibberish-protocol/src/frame.rs:522-624 | After any history the table holds the last up to four distinct non-zero ids in order of last contact, with latest readings and saturating count since (re)insertion. |
| PeerTable.RecencyMeaning | crates/gibberish-protocol/src/frame.rs:508-509 | The reference list holds every non-zero id contacted, once, ordered by last contact. |
| PeerTable.LookupMeaning | crates/gibberish-protocol/src/frame.rs:539-551 | Looking a peer up finds it, with its latest readings, if and only if it is among the four nodes contacted last. |
| PeerTable.Table.RecordPeer | crates/gibberish-protocol/src/frame.rs:556-601 | The in-place shifting loops act as Record on a gap-free prefix of the slots. |
| PeerTable.Table.GetPeer | crates/gibberish-protocol/src/frame.rs:539-551 | Lookup by node id. |
| PeerTable.Table.PrimaryPeer | crates/gibberish-protocol/src/frame.rs:603-611 | The most recent entry. |
| PeerTable.Table.SecondaryPeer | crates/gibberish-protocol/src/frame.rs:613-624 | The second most recent entry. |
| Clipboard.NoEndlessEcho | apps/gibberish-daemon/src/main.rs:284-320 | In any run of any number of hosts with successful clipboard writes, broadcasts number at most user copies plus hosts; no assumption on the hash is needed. |
| Clipboard.BroadcastsBounded | apps/gibberish-daemon/src/clipboard.rs:89-114 | With failed writes counted too: broadcasts plus pending texts are at most copies, hosts and failed writes. |
| Clipboard.RemoteWriteIsQuiet | apps/gibberish-daemon/src/clipboard.rs:89-167 | After a write from the mesh the host broadcasts nothing, however often it is polled and whatever else is successfully written to it, until its user copies, if the write succeeded or the clipboard was empty or already had that digest; otherwise the very next poll broadcasts the old content. |
| Clipboard.SuppressionWindow | apps/gibberish-daemon/src/clipboard.rs:107-181 | A write from the mesh suppresses texts with its digest, and no others, for exactly half a second, whatever happens short of another write to that host. |
| Clipboard.BroadcastExactly | apps/gibberish-daemon/src/clipboard.rs:89-114 | Over every run, a poll broadcasts the text last copied or successfully received at the host, unchanged, if and only if it is not empty, not the text received last within half a second, and new in digest against the last text received or broadcast there; and the clipboard holds that text. |
| Clipboard.FailedWriteEchoes | apps/gibberish-daemon/src/clipboard.rs:114-167 | A failed write makes a host broadcast its old content again. |
| Clipboard.ClipboardManager.ReadClipboard | apps/gibberish-daemon/src/clipboard.rs:28-104 | The poll over the manager's fields. |
| Clipboard.ClipboardManager.WriteClipboard | apps/gibberish-daemon/src/clipboard.rs:107-168 | The remote write over the manager's fields. |

## Left out

- Serial ports, files, `fsync`, OS clipboard commands, WebSocket IPC, command-line parsing and logging: represented only by the state they read or write.
- Radio registers, SD command sequences, GPIO, LCD and LED drivers: hardware effects and user interface.
- ChaCha20-Poly1305, BLAKE3, X25519 and CRC-32 internals: library code, here arbitrary functions.
- Forgery resistance of the cipher: no theorem needs that only sealed chunks open, though some need that a sealed chunk opens under its own coordinates only.
- A run that joins the mesh and all host engines in one state: the source of an ingested packet is an input; EndToEnd says which source a transmitted frame gives.
- The overflow trimming of the host's serial buffer: its drop rule depends on read sizes, so nothing independent of them holds past 1024 bytes.
- Non-ASCII bytes in a `#PKT#` line: a character of the model is one byte, and only ASCII white space separates tokens.
- The 64-bit overflow of the counter reservation: counters are unbounded in the model.
- Recovery.RecoveryBound: assumes successful start-up reads and no reported checkpoint error; RecoveryTheorem covers the other runs.
- Mesh.FloodingBounded: bounds nodes that insert at most 1025 keys; up to that point the filter has forgotten nothing, and from the next insert on a packet can be relayed again (RelayedAgain).
- Reassembly.FragmentThenReassemble: assumes that the message is neither evicted nor timed out, because eviction precedes authentication; that the first packet to arrive announces the true chunk count, which is not authenticated; and that every packet under its key is one of its own or fails to authenticate, as a chunk past its end would panic.
- Telemetry payload structs and counters, RSSI to LQI conversion, the BLE gate, the sender key ratchet and fleet log parsing: easy or text-formatting members.
- Web and iOS clients, hardware programs under `bin/`, and planned features that the code does not contain.
