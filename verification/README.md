# DPAA receive/transmit translation and the FSLMC bus, in Dafny

This project models two parts of a DPDK-era packet I/O stack for NXP
(Freescale) DPAA and DPAA2 hardware. It proves properties of both.

**The DPAA Ethernet fast path** (`drivers/net/dpaa/dpaa_rxtx.c`) translates
between hardware frame descriptors and packet buffers (mbufs).
- On receive, a dequeued descriptor becomes one mbuf: contiguous, or a
  chain built from a scatter-gather (SG) table. Its packet type, offload
  lengths and flags are set from the hardware parse annotation. As in the
  code, the VLAN test is made on the parse word already masked for the
  packet-type switch, which holds no VLAN bit, so no received buffer is
  flagged as VLAN. The classification as evidently intended, which tests
  the whole parse word, is modelled beside it (see Findings).
- On transmit, each mbuf of a burst becomes one descriptor, in one of
  three ways:
  - a contiguous descriptor, for a single segment;
  - an SG descriptor whose table sits in a freshly allocated carrier
    buffer;
  - a copy into a buffer of the port's own pool, for a buffer from a
    software pool.

  Descriptors are then enqueued in chunks of at most eight.

**The FSLMC bus** (`drivers/bus/fslmc/fslmc_bus.c`) covers:
- scanning the VFIO group's device directory;
- cutting each name such as `dpni.3` into an object type and a 16-bit
  object id;
- matching drivers to devices by type;
- calling the first eligible driver's probe hook for each device;
- registering and unregistering drivers.

## How the model is built

- **Buffers.** The buffer world is an immutable `State`:
  - a heap of mbufs keyed by buffer id;
  - the buffers each hardware pool hands out next;
  - logs of software frees and hardware releases.
- **Memory the driver reads but does not own** is a `Mem`:
  - the physical-to-virtual translation;
  - the parse annotations;
  - the SG tables stored in buffers.
- **C field widths** are kept wherever the driver packs or truncates a
  value, for example `bv16`, `bv32`, the 20-bit length field, the 9-bit
  offset field and `uint8_t` offsets.
- **Hardware and library calls** become parameters:
  - portal initialisation and the volatile-dequeue setup are flags;
  - dequeued descriptors are a sequence of polls;
  - the enqueue call's answers are a sequence of counts;
  - VFIO setup and the directory listing are inputs.
- **The bus lists** are sequences in list order. A driver is known by an
  id that stands for its address.

Modules:
- `DpaaDefs`: data model.
- `FrameDesc`: descriptor bit-fields.
- `Classify`: parse annotation and checksum offload.
- `Rx`, `RxProps`, `RxQueue`: receive.
- `Tx`, `TxProps`, `TxPacket`, `TxBurst`: transmit.
- `FslmcName`: `strncmp`, `strtok` and `sscanf("%hu")`.
- `FslmcBus`: the bus.

## Model

| member | source | states |
|---|---|---|
| DpaaDefs.BufFree | drivers/net/dpaa/dpaa_rxtx.c:85-101 | releasing a buffer to its hardware pool appends exactly that (pool, address) pair to the release log and changes nothing else; the busy-retry loop ends in one release |
| DpaaDefs.MbufFree | drivers/net/dpaa/dpaa_rxtx.c:327 | a software free appends exactly that buffer to the free log and changes nothing else |
| DpaaDefs.Alloc | drivers/net/dpaa/dpaa_rxtx.c:410-431 | acquiring from a pool with bman_acquire fails exactly when the pool has no buffer left; otherwise it yields the pool's next buffer as the pool holds it and removes only that one from the pool |
| DpaaDefs.PktmbufReset | drivers/net/dpaa/dpaa_rxtx.c:468 | the reset rte_pktmbuf_alloc applies: the data offset is the 128-byte default headroom, or the buffer length when smaller; one empty segment, refcount 1, no link, port, flags, type or offload word; memory, pool, owner and hash kept |
| DpaaDefs.ResetForgets | drivers/net/dpaa/dpaa_rxtx.c:468 | the reset depends only on the buffer's memory, pool, owner and hash, not on its earlier use, and resetting twice is resetting once |
| Tx.TakeCarrier | drivers/net/dpaa/dpaa_rxtx.c:468-472 | allocating the carrier fails exactly when the pool is empty; otherwise it takes the pool's next buffer and leaves it reset in the heap, changing nothing else |
| Tx.StaleCarrierOffsetExample | drivers/net/dpaa/dpaa_rxtx.c:468-477 | a 2048-byte carrier recorded at offset 2040 would fail the capacity test for two segments; after the reset its offset is 128 and the test passes |
| DpaaDefs.AllocKeepsWf | drivers/net/dpaa/dpaa_rxtx.c:410-431 | an acquired buffer exists, and acquiring keeps every translation and pool entry pointing at existing buffers |
| FrameDesc.ContigWord | drivers/net/dpaa/dpaa_rxtx.c:78-80 | when offset and length fit their fields, the packed word reads back as format contiguous, that offset and that length |
| FrameDesc.MbufToContigFd | drivers/net/dpaa/dpaa_rxtx.c:74-83 | the contiguous descriptor has command 0, the buffer's physical address and the pool id cut to 8 bits; its fields decode to the mbuf's data offset and packet length when they fit |
| FrameDesc.MakeSgFd | drivers/net/dpaa/dpaa_rxtx.c:491-496 | the SG descriptor decodes to format SG, the given address, the 8-bit pool id, the offset cut to 9 bits and the length cut to 20 bits |
| Classify.PtypeOfClosed | drivers/net/dpaa/dpaa_rxtx.c:144-194 | the parse word has a packet type exactly when it is one of the codes the switch lists |
| Classify.PtypeOfAgreesWithBits | drivers/net/dpaa/dpaa_rxtx.c:144-190 | each listed code's packet type is the union of the L2, L3 and L4 bits that its parse flags name |
| Classify.PtypeOfInjective | drivers/net/dpaa/dpaa_rxtx.c:144-190 | two different listed codes never give the same packet type |
| Classify.TxOffloadOf | drivers/net/dpaa/dpaa_rxtx.c:196-198 | when ip_off[0] fits 7 bits and does not exceed l4_off, the offload word's L2 length is ip_off[0] and its L3 length is l4_off - ip_off[0] |
| Classify.RxFlags | drivers/net/dpaa/dpaa_rxtx.c:202-206 | the RSS-hash flag is always set, the VLAN flag is set exactly when the word it is given has a VLAN bit, and no other flag is set |
| Classify.PacketInfo | drivers/net/dpaa/dpaa_rxtx.c:136-207 | corrected receive classification. The packet type comes from the table for a known masked code and is kept otherwise. The flags come from the raw parse word, so its VLAN bits count. The offload word comes from the annotation's offsets, and the hash is the host-order annotation hash cut to 32 bits. Every other mbuf field is untouched |
| Classify.PacketInfoAsWritten | drivers/net/dpaa/dpaa_rxtx.c:140-206 | the classification as written, which the receive path applies: the flags are computed from the parse word after DPAA_PARSE_MASK; everything else is as in the corrected classification |
| Classify.VlanTestDead | drivers/net/dpaa/dpaa_rxtx.c:140-205 | with the header values used here, no word masked by DPAA_PARSE_MASK has a bit of DPAA_PARSE_VLAN_MASK |
| Classify.AsWrittenFlagsRssOnly | drivers/net/dpaa/dpaa_rxtx.c:140-206 | as written, every received buffer gets exactly PKT_RX_RSS_HASH and never PKT_RX_VLAN_PKT |
| Classify.PacketInfoVlan | drivers/net/dpaa/dpaa_rxtx.c:202-206 | the corrected classification sets PKT_RX_VLAN_PKT exactly when the raw parse word has a VLAN bit. The code as written differs from it only in the flags, which are RSS alone |
| Classify.VlanLostExample | drivers/net/dpaa/dpaa_rxtx.c:140-206 | a concrete IPv4/TCP parse word with a VLAN bit: corrected, it is flagged as VLAN; as written, it is not |
| Classify.L3Result | drivers/net/dpaa/dpaa_rxtx.c:254-263 | the L3 result is IPv4 exactly for IPv4 or IPv4-ext types, IPv6 exactly for IPv6 types that are not IPv4, and 0 exactly for neither |
| Classify.L4Result | drivers/net/dpaa/dpaa_rxtx.c:255-268 | the L4 result is TCP exactly for an L4 TCP type, UDP exactly for UDP, and 0 exactly for anything else |
| Classify.OffloadOffsets | drivers/net/dpaa/dpaa_rxtx.c:270-271 | the parse block's ip_off[0] is the L2 length and its l4_off is L2 plus L3 length, both cut to 8 bits |
| Classify.ChecksumOffload | drivers/net/dpaa/dpaa_rxtx.c:246-274 | checksum offload sets command RPD\|DTC and a parse block with the L3 and L4 results and offsets of the mbuf |
| Classify.OffloadRestoresAnnotationOffsets | drivers/net/dpaa/dpaa_rxtx.c:196-198 | a frame classified on receive and then offloaded on transmit gets back the annotation's own ip_off[0] and l4_off |
| Classify.OffsetsOfTxOffload | drivers/net/dpaa/dpaa_rxtx.c:270-271 | the transmit offsets invert the receive offload encoding |
| Classify.OffloadOfClassifiedFrame | drivers/net/dpaa/dpaa_rxtx.c:167-182 | for a received TCP or UDP frame over IPv4 or IPv6, the transmit L3 and L4 results name exactly the protocols of its parse code |
| Rx.SgWalk | drivers/net/dpaa/dpaa_rxtx.c:308-324 | the SG loop keeps the set of buffers and consumes between its start index and the table bound |
| Rx.SgTableToMbuf | drivers/net/dpaa/dpaa_rxtx.c:292-329 | SG receive never yields NULL once the carrier is mapped. On success the carrier is freed exactly once and nothing is released. The head carries the carrier annotation's classification as the code applies it: the table's packet type for a known code, the offload word, the 32-bit hash, and the RSS-hash flag alone. On a fault nothing changes |
| Rx.SgToMbuf | drivers/net/dpaa/dpaa_rxtx.c:276-291 | an unmapped carrier gives NULL with no change; a mapped one reads the table at the descriptor offset cut to 8 bits; the state stays well formed |
| Rx.SgtOffset | drivers/net/dpaa/dpaa_rxtx.c:283 | the table offset is below 256, and equals the descriptor offset when that fits 8 bits |
| Rx.FdToMbuf | drivers/net/dpaa/dpaa_rxtx.c:332-376 | SG descriptors go to SG receive. A format that is neither SG nor contiguous, or an unmapped address, gives NULL and releases the buffer to its pool. A mapped contiguous one changes only its own buffer: offset, length, data_len, one segment, no next, refcount 1, port, then the annotation's classification as the code applies it, with the flags from the masked parse word |
| RxProps.ContigRoundTrip | drivers/net/dpaa/dpaa_rxtx.c:74-83 | receiving the contiguous descriptor built for an mbuf gives back that buffer with its data offset and packet length, one segment and refcount 1, and frees and releases nothing |
| RxProps.Consumed | drivers/net/dpaa/dpaa_rxtx.c:308-324 | from entry i the SG loop consumes at least one more entry and never passes the table bound; it stops after the first final entry at or after i |
| RxProps.StepCur | drivers/net/dpaa/dpaa_rxtx.c:313-320 | one SG loop step gives the current segment the entry's offset, 16-bit length and refcount 1; it clears its next only on a final entry |
| RxProps.StepFirstPrev | drivers/net/dpaa/dpaa_rxtx.c:315-318 | one SG loop step links the previous segment to the current one, adds the entry's length modulo 2^32 to the packet length and counts one more segment |
| RxProps.StepOthers | drivers/net/dpaa/dpaa_rxtx.c:309-323 | one SG loop step leaves the count, offset and length of every segment except the current one as they were |
| RxProps.StepKeepsInv | drivers/net/dpaa/dpaa_rxtx.c:308-324 | one SG loop step extends the partial chain by its entry; on the last consumed entry, when final, the whole chain is built |
| RxProps.WalkBuildsChain | drivers/net/dpaa/dpaa_rxtx.c:308-324 | with every consumed entry mapped to distinct buffers, the walk consumes exactly those entries and builds the chain they describe |
| RxProps.WalkFaultIff | drivers/net/dpaa/dpaa_rxtx.c:308-312 | the walk faults exactly when some consumed entry has an unmapped address |
| RxProps.SgChainBuilt | drivers/net/dpaa/dpaa_rxtx.c:276-330 | SG receive delivers entry 0's buffer as head of the chain of consumed entries. Entry 0's final flag is ignored, and with no final flag the last segment's next is left as it was. The carrier is freed. The head is the original buffer with entry 0's offset and data length, the summed packet length, the segment count, refcount 1, port ifid and cleared flags, then classified as the code does it (RSS flag alone). No buffer outside the consumed segments changes |
| RxProps.WalkFrame | drivers/net/dpaa/dpaa_rxtx.c:308-323 | the loop over entries 1.. changes no buffer outside the consumed segments, and of the first segment only its packet length, segment count and link |
| RxProps.SgFaultIff | drivers/net/dpaa/dpaa_rxtx.c:292-312 | SG receive faults exactly when some consumed entry is unmapped |
| RxQueue.Requested | drivers/net/dpaa/dpaa_rxtx.c:394-395 | the dequeue request is the burst size capped at DPAA_MAX_DEQUEUE_NUM_FRAMES |
| RxQueue.RxAll | drivers/net/dpaa/dpaa_rxtx.c:399-405 | every dequeued descriptor fills one slot, and the state stays well formed |
| RxQueue.RxAllSlots | drivers/net/dpaa/dpaa_rxtx.c:403 | slot k holds the translation of descriptor k in the state left by descriptors 0..k-1 |
| RxQueue.QueueRx | drivers/net/dpaa/dpaa_rxtx.c:378-408 | a portal or volatile-dequeue failure returns 0 with no change; otherwise the count is the number of frames dequeued, NULL slots included, and the slots are RxAll's |
| Tx.SegPolicy | drivers/net/dpaa/dpaa_rxtx.c:506-523 | the SG entry's pool id is below 256; the policy changes only reference counts |
| Tx.PolicyOnlyCounts | drivers/net/dpaa/dpaa_rxtx.c:506-523 | apart from reference counts, every buffer is left as it was by the per-segment pool policy |
| TxProps.SegEntryRoundTrip | drivers/net/dpaa/dpaa_rxtx.c:501-505 | the receive side reads a transmitted SG entry back: the receiving buffer, first or later, gets the segment's data length, and gets its data offset exactly when that offset is below 0x2000 (the 13-bit field); a later segment's link ends exactly at the final flag |
| Tx.Unlink | drivers/net/dpaa/dpaa_rxtx.c:524-527 | an indirect segment is detached from the chain and freed |
| Tx.Guard | drivers/net/dpaa/dpaa_rxtx.c:506-517 | the buffer whose reference count decides the pool id exists: the segment itself when direct, its owner when indirect |
| Tx.VisitAsWritten | drivers/net/dpaa/dpaa_rxtx.c:506-528 | the per-segment visit is the pool policy for a direct segment, and the policy followed by unlink-and-free for an indirect one |
| Tx.VisitFrame | drivers/net/dpaa/dpaa_rxtx.c:499-528 | a visit keeps every buffer's data and owner; it changes a next link only to clear the visited segment's |
| Tx.SgBuild | drivers/net/dpaa/dpaa_rxtx.c:499-535 | the table loop writes between one entry and the room left, keeps the set of buffers, and takes no pool buffer |
| Tx.CarrierOffset | drivers/net/dpaa/dpaa_rxtx.c:482-486 | a checksum request raises the carrier's data offset to at least the parse-block headroom; it is never lowered and changes only for such a request |
| Tx.SgTable | drivers/net/dpaa/dpaa_rxtx.c:491-535 | the table has between 1 and DPA_SGT_MAX_ENTRIES entries and keeps links inside the heap |
| Tx.MbufToSgFd | drivers/net/dpaa/dpaa_rxtx.c:456-537 | an empty pool fails with no change. The carrier is taken reset, and the capacity test reads its reset offset. A carrier too small for one entry per segment fails with the carrier left reset, kept out of its pool and never freed. Otherwise the descriptor names the carrier at its reset offset, possibly raised, and the packet's length, with the SG table. Checksum work is chosen exactly for a checksum request: without one the frame has no checksum work and command 0, and under hardware offload its parse block is the one computed from the mbuf |
| Tx.GetDmableMbuf | drivers/net/dpaa/dpaa_rxtx.c:433-454 | fails exactly when the port pool is empty; otherwise it returns the pool's next buffer and frees the original exactly once |
| Tx.BuildKeepsClosed | drivers/net/dpaa/dpaa_rxtx.c:499-535 | the table loop keeps every next and owner link pointing at an existing buffer |
| TxProps.SgBuildLast | drivers/net/dpaa/dpaa_rxtx.c:529-533 | the table's last entry is final, or the table used all its room |
| TxProps.SgBuildContents | drivers/net/dpaa/dpaa_rxtx.c:499-535 | for a chain of distinct segments, entry j describes segment j of the chain as it was before the loop |
| TxProps.SgBuildFullNotFinal | drivers/net/dpaa/dpaa_rxtx.c:499 | a chain longer than the table fills every entry and no entry is final: the loop stops silently |
| TxProps.CarrierKeepsTable | drivers/net/dpaa/dpaa_rxtx.c:485-505 | raising the carrier's offset does not change the entries written for a chain that does not contain the carrier |
| TxProps.SgTableDescribes | drivers/net/dpaa/dpaa_rxtx.c:491-535 | the table written into the carrier describes the packet's chain segment by segment |
| TxProps.BpidsAt | drivers/net/dpaa/dpaa_rxtx.c:506-523 | the pool id chosen for segment j is the reference-count policy's choice in the state the visits of segments 0..j-1 left |
| TxProps.VisitsFreed | drivers/net/dpaa/dpaa_rxtx.c:506-528 | visiting a sequence of segments frees exactly its indirect segments, in order |
| TxProps.SgBuildPolicy | drivers/net/dpaa/dpaa_rxtx.c:499-535 | for a chain of distinct segments, entry j's pool id is the policy's choice for segment j in the state the earlier visits left, and the loop ends in the state all the visits leave |
| TxProps.CarrierKeepsPolicy | drivers/net/dpaa/dpaa_rxtx.c:485-535 | raising the carrier's offset does not change the pool ids chosen for a chain that does not contain the carrier; the freed list grows by the chain's indirect segments in order |
| TxProps.SgTablePolicy | drivers/net/dpaa/dpaa_rxtx.c:485-535 | the table written into the carrier gives entry j the policy's choice for segment j after the earlier visits, and the freed list grows by exactly the packet's indirect segments, in chain order |
| TxProps.PolicyProtectsShared | drivers/net/dpaa/dpaa_rxtx.c:506-523 | the entry gets the invalid pool id 0xff exactly when the deciding buffer is shared or belongs to pool 0xff; otherwise it gets that buffer's pool id |
| TxProps.PolicyCounts | drivers/net/dpaa/dpaa_rxtx.c:507-522 | a shared direct segment loses one reference and an unshared indirect owner gains one; every other count stays |
| TxProps.SgFdFields | drivers/net/dpaa/dpaa_rxtx.c:491-496 | the SG descriptor decodes to format SG, the carrier's address, the 8-bit pool id, the reset carrier's offset (raised for a checksum request) in 9 bits and the packet length in 20 bits |
| TxPacket.ContigCksum | drivers/net/dpaa/dpaa_rxtx.c:596-607 | no checksum work happens exactly without a request; software checksum exactly with a request and less headroom than the parse block needs; otherwise hardware offload with the mbuf's parse block |
| TxPacket.ContigCmd | drivers/net/dpaa/dpaa_rxtx.c:596-607 | the contiguous descriptor's command is RPD\|DTC under hardware offload and 0 otherwise |
| TxPacket.ContigAsWritten | drivers/net/dpaa/dpaa_rxtx.c:575-607 | as written, the single-segment path always emits a frame and frees exactly an indirect buffer; the checksum code then reads the buffer in the state after that free |
| TxPacket.ContigReadsFreed | drivers/net/dpaa/dpaa_rxtx.c:594-596 | for an indirect buffer, the state the checksum test reads has that buffer as the most recently freed one |
| TxPacket.ContigReadsFreedExample | drivers/net/dpaa/dpaa_rxtx.c:594-596 | a concrete indirect buffer with a checksum request is read after it was freed |
| TxPacket.ContigFrame | drivers/net/dpaa/dpaa_rxtx.c:575-607 | the corrected single-segment path: the descriptor is the contiguous one with the pool policy's id and the command for its checksum choice; the choice is made from the buffer before it is freed; only an indirect buffer is freed |
| TxPacket.ContigFrameMatchesAsWritten | drivers/net/dpaa/dpaa_rxtx.c:575-607 | in this model, where a free only records itself and leaves the buffer's fields as they were, the code as written emits the same frame and state as the corrected path |
| TxPacket.DmableKeepsWf | drivers/net/dpaa/dpaa_rxtx.c:433-454 | the copy into the port's pool keeps links and pool entries inside the heap |
| TxPacket.DmableCopiesFields | drivers/net/dpaa/dpaa_rxtx.c:446-451 | the copy gets data offset, packet length, flags, packet type and offload word. It keeps its own data_len, segment count, next link and address, and no other buffer changes |
| TxPacket.TxOne | drivers/net/dpaa/dpaa_rxtx.c:564-644 | converting one buffer keeps the state well formed, keeps the set of buffers and releases nothing to hardware |
| TxPacket.TxOneCases | drivers/net/dpaa/dpaa_rxtx.c:564-644 | conversion stops exactly for a hardware-pool buffer with 0 or more than 16 segments or whose SG conversion fails, or for a software-pool buffer when the port pool is empty. A stop leaves the heap as it was, except that an SG carrier allocated and then found too small stays reset and out of its pool. A single-segment hardware buffer always yields the contiguous frame, a 2..16-segment one whose SG conversion succeeds yields its SG frame, and a software-pool buffer with a copy yields the copy's contiguous frame |
| TxPacket.ContigKeepsWf | drivers/net/dpaa/dpaa_rxtx.c:575-595 | the single-segment path keeps the state well formed |
| TxBurst.ChunkSize | drivers/net/dpaa/dpaa_rxtx.c:561 | a chunk is the remaining count capped at MAX_TX_RING_SLOTS: the shift by 3 tests for at least eight buffers |
| TxBurst.ConvertKeepsWf | drivers/net/dpaa/dpaa_rxtx.c:560-645 | converting a whole burst keeps the state well formed and the set of buffers |
| TxBurst.ConvertOrder | drivers/net/dpaa/dpaa_rxtx.c:562-645 | frame k of a burst is the conversion of buffer k in the state left by buffers 0..k-1 |
| TxBurst.ConvertStops | drivers/net/dpaa/dpaa_rxtx.c:608-640 | a burst that converts fewer buffers than given stopped at the first buffer whose conversion failed, in the state that failure left |
| TxBurst.Enqueue | drivers/net/dpaa/dpaa_rxtx.c:648-652 | the enqueue loop hands over the whole chunk unless the answers run out |
| TxBurst.ConvertChunk | drivers/net/dpaa/dpaa_rxtx.c:562-645 | a chunk converts its buffers in order and continues the burst's conversion from where it stops |
| TxBurst.Burst | drivers/net/dpaa/dpaa_rxtx.c:560-658 | unless the enqueue stalls, the frames handed to hardware are the burst's conversions in order and the count is their number; a stalled burst sent a prefix of them. Chunks are at most eight and add up to the frames sent |
| TxBurst.QueueTx | drivers/net/dpaa/dpaa_rxtx.c:539-659 | a portal failure returns 0 with no change; otherwise the frames sent and the returned count are those of converting the buffers in order until the first failure, in chunks of at most eight |
| FslmcName.StrnEqPrefix | drivers/bus/fslmc/fslmc_bus.c:77 | strncmp with the literal's own length is zero exactly when the name starts with the literal |
| FslmcName.StrnEqExact | drivers/bus/fslmc/fslmc_bus.c:115 | strncmp one character past the literal is zero exactly when the token is the literal |
| FslmcName.Strtok | drivers/bus/fslmc/fslmc_bus.c:100-127 | strtok finds no token exactly when the text is only dots; a token is non-empty and holds no dot |
| FslmcName.StrtokSplit | drivers/bus/fslmc/fslmc_bus.c:100-127 | cutting "token.rest" gives the token and then the rest; a dot-free name is a single token with nothing after |
| FslmcName.TypeOfTable | drivers/bus/fslmc/fslmc_bus.c:105-120 | dpni, dpseci, dpcon, dpbp, dpio and dpmcp are recognised as prefixes of the first token; dpci, compared over five characters, only as the exact token; every other token is unknown |
| FslmcName.Strtoul | drivers/bus/fslmc/fslmc_bus.c:129 | the conversion never exceeds ULONG_MAX and gives the value itself for an unsigned value in range |
| FslmcName.ScanU16 | drivers/bus/fslmc/fslmc_bus.c:129 | a stored object id is below 2^16 |
| FslmcName.Store16Low | drivers/bus/fslmc/fslmc_bus.c:129 | storing into the unsigned short keeps the value modulo 2^16 |
| FslmcName.ScanValue | drivers/bus/fslmc/fslmc_bus.c:129 | a run of digits whose value fits 16 bits is read as that value |
| FslmcName.ScanDecimal | drivers/bus/fslmc/fslmc_bus.c:129 | reading back the decimal spelling of any 16-bit number gives that number |
| FslmcName.ParseName | drivers/bus/fslmc/fslmc_bus.c:99-129 | a parsed object id fits 16 bits |
| FslmcName.ParseNameOf | drivers/bus/fslmc/fslmc_bus.c:99-129 | "type.id" parses to the first token's type and that id |
| FslmcBus.ScanOne | drivers/bus/fslmc/fslmc_bus.c:67-158 | returns 0 or -1. NULL gives -1. A failure leaves the list unchanged. Otherwise the list is unchanged, or grows by one device at its tail, named after the entry, with a 16-bit id |
| FslmcBus.ScanOneContainer | drivers/bus/fslmc/fslmc_bus.c:76-78 | a name starting with "dprc" returns 0 and adds nothing |
| FslmcBus.ScanOneAdds | drivers/bus/fslmc/fslmc_bus.c:99-151 | "type.id" adds exactly one device at the tail, with the first token's type and that id, and returns 0 |
| FslmcBus.ScanOneNoId | drivers/bus/fslmc/fslmc_bus.c:122-127 | a name without a second token returns -1 and adds nothing |
| FslmcBus.ScanOneNoToken | drivers/bus/fslmc/fslmc_bus.c:100-104 | a name without a first token returns -1 and adds nothing |
| FslmcBus.ScanOneNoNumber | drivers/bus/fslmc/fslmc_bus.c:92-129 | a second token that is not a number leaves the object id at calloc's zero |
| FslmcBus.DprcOfToken | drivers/bus/fslmc/fslmc_bus.c:77 | for "token.…", the container test on the name is the prefix test on the token |
| FslmcBus.ScanEntriesGrows | drivers/bus/fslmc/fslmc_bus.c:191-201 | a successful scan keeps the earlier devices in front |
| FslmcBus.ScanEntriesNames | drivers/bus/fslmc/fslmc_bus.c:191-201 | every device a scan adds is named after a link entry whose name does not start with '.' |
| FslmcBus.ScanEntriesSkipsAll | drivers/bus/fslmc/fslmc_bus.c:192-193 | hidden and non-link entries add nothing |
| FslmcBus.CleanupDeviceList | drivers/bus/fslmc/fslmc_bus.c:54-65 | every device is freed once, in list order, and the list ends empty |
| FslmcBus.Scan | drivers/bus/fslmc/fslmc_bus.c:160-217 | always 0 and marks the bus scanned. A repeated call, a missing group or an unopenable directory leaves the list unchanged. Otherwise the list grows by each entry's device, and any entry failure empties it |
| FslmcBus.Match | drivers/bus/fslmc/fslmc_bus.c:219-227 | 0 exactly when the driver's type is the device's type, and 1 otherwise |
| FslmcBus.FirstProbeFrom | drivers/bus/fslmc/fslmc_bus.c:249-260 | the driver chosen is eligible, meaning it matches and has a probe hook, and no earlier driver is; none is chosen exactly when no driver is eligible |
| FslmcBus.DispatchCalls | drivers/bus/fslmc/fslmc_bus.c:248-262 | each probe call goes to the first eligible driver of its device, and calls run in device order, so no device is probed twice |
| FslmcBus.DispatchComplete | drivers/bus/fslmc/fslmc_bus.c:248-262 | every device with an eligible driver has its probe call |
| FslmcBus.Probe | drivers/bus/fslmc/fslmc_bus.c:229-269 | always 0; a VFIO setup or processing failure calls nothing; otherwise the calls are the dispatch's |
| FslmcBus.Register | drivers/bus/fslmc/fslmc_bus.c:272-280 | the driver goes to the tail with its bus back-reference set, and the list stays free of duplicates |
| FslmcBus.Unregister | drivers/bus/fslmc/fslmc_bus.c:283-293 | the driver leaves the list with its back-reference cleared; the list is one shorter, no longer holds it, and keeps every other driver |
| FslmcBus.UnregisterKeepsOrder | drivers/bus/fslmc/fslmc_bus.c:283-293 | unregistering leaves the other drivers in registration order |
| FslmcBus.UnregisterRegister | drivers/bus/fslmc/fslmc_bus.c:272-293 | unregistering a driver just registered restores the list, and the driver ends with its back-reference cleared |

## Left out

- The headers that define the parse codes, packet-type bits, offload flags,
  descriptor commands and parse-result codes are not part of this model.
  Their values are recalled values of the driver's headers (`dpaa_rxtx.h`,
  `rte_mbuf.h`, `fsl_qman.h`). The
  classification proofs rely only on the codes being distinct and on their
  bit positions. The VLAN finding also rests on DPAA_PARSE_MASK and
  DPAA_PARSE_VLAN_MASK having no bit in common.
- Classify.PacketInfo: the hash is taken as the host-order value after
  `rte_be_to_cpu_64`; the byte-order conversion itself is not modelled.
- DpaaDefs.PktmbufReset: `rte_pktmbuf_reset` and `rte_mbuf_raw_alloc` are
  not part of this model. The fields they set, the 128-byte
  RTE_PKTMBUF_HEADROOM of the default build configuration and the port
  value 0xff are recalled. The VLAN tags it clears are not modelled.
- DpaaDefs.Alloc: pool entries are buffer ids already translated.
  `dpaa_get_pktbuf` translates the acquired address with `dpaa_mem_ptov`
  and subtracts `meta_data_size`. A failed translation is not modelled, and
  neither is its consequence: `NULL - meta_data_size` is not NULL, so the
  `!buf` test is dead and the copy would go through a bogus pointer.
- Packet data is not modelled. That covers the bytes themselves, `memcpy`
  into the copy buffer, and the software checksum `dpaa_checksum`. The
  transmit path records only the choice of software checksum.
- The byte-order conversions `hw_sg_to_cpu` and `cpu_to_hw_sg` are left out:
  SG entries are held in processor byte order throughout.
- `dcbz_64`, prefetches, logging, `dpaa_display_frame` and
  `dpaa_slow_parsing` are left out: they change no modelled state.
  `dpaa_slow_parsing` is a no-op, so an unknown parse code leaves the
  packet type unchanged.
- Portal affinity (`dpaa_portal_init`, the per-core `_dpaa_io`) is a boolean
  input, and concurrency between cores is not modelled.
- RxQueue.QueueRx: requires that hardware delivers no more frames than the
  volatile dequeue asked for. That is a hardware contract, not a check in
  the code. `qman_dqrr_consume` is not modelled.
- Rx.SgTableToMbuf: an SG entry with an unmapped address makes the C code
  write through an unmapped address. The model returns `Fault` there instead of
  modelling what the memory would hold.
- DpaaDefs.MbufFree: only records that a free happened. The mempool's
  reference counting and freeing of whole chains are not modelled.
- `bman_release` is assumed to succeed eventually, so its retry loop is a
  single release.
- The `mp &&` NULL test of `dpaa_eth_queue_tx` is left out: every buffer has
  a pool in the model.
- TxBurst.QueueTx: when the enqueue answers run out, the model stops and
  reports `stalled`; the source would spin forever in its retry loop. The
  contract only says that a stalled burst sent a proper prefix of the
  conversions.
- TxBurst.TxStep: a state that is not well formed stops the burst. Such a
  state has a link or pool entry naming a missing buffer, where the source
  would dereference a stale address.
- TxBurst.ConvertAll: the reference definition of the burst is ghost. It
  holds a function value, so QueueTx states its result through it rather
  than returning it.
- `dpaa_eth_tx_drop_all` is left out: it only returns 0.
- The `strdup` and `calloc` failure paths of `scan_one_fslmc_device`
  (`-ENOMEM`) are left out. Allocation always succeeds in the model, so
  FslmcBus.ScanOne returns only 0 or -1.
- `fslmc_get_container_group`, `opendir`, `readdir` and `closedir` become
  inputs: a success flag and an optional listing. `fslmc_vfio_setup_group`
  and `fslmc_vfio_process_group` become two success flags.
- A driver's probe hook is recorded only as a call. Its result is only
  logged and its effect is outside the bus.
- FslmcBus.Register: requires the driver not to be listed already, because
  inserting a listed element corrupts the list. `RTE_VERIFY(driver)`
  aborting on NULL is left out: a driver is never NULL in the model.
- FslmcBus.Unregister: requires the driver to be on the list, because
  removing an element that is not listed is undefined.
- The `RTE_REGISTER_BUS` constructor and the bus object's initial lists are
  left out: lists are parameters.
- FslmcName.Strtoul: assumes a 64-bit unsigned long. `errno` is not
  modelled.
- FslmcName.ScanU16: follows the C library that stores `%hu` as the
  converted value cut to 16 bits.

## Findings

| source | as written | input that shows it | evidently intended | confidence | as-written member | corrected member |
|---|---|---|---|---|---|---|
| drivers/net/dpaa/dpaa_rxtx.c:594-596 | An indirect single-segment buffer is freed with `rte_pktmbuf_free(mbuf)`. Then `mbuf->ol_flags` and `mbuf->data_off` are read, and `dpaa_checksum*(mbuf)` is called on the freed buffer. The mbuf library detaches an indirect mbuf when it frees it, which resets data_off and zeroes ol_flags; that detach is not part of this model. So the checksum request is read as absent and the checksum is skipped | an indirect buffer, attached to a direct owner with refcount 2 from a hardware pool, carrying a checksum request (TxPacket.ContigReadsFreedExample) | decide and prepare the checksum from the buffer before freeing it | not executed | TxPacket.ContigAsWritten (TxPacket.ContigReadsFreed, TxPacket.ContigReadsFreedExample) | TxPacket.ContigFrame (TxPacket.ContigFrameMatchesAsWritten) |
| drivers/net/dpaa/dpaa_rxtx.c:140-206 | The VLAN test `prs & DPAA_PARSE_VLAN_MASK` runs on `prs`, the parse word already masked with DPAA_PARSE_MASK. The two masks share no bit, so the test is always false and no received buffer gets PKT_RX_VLAN_PKT | an IPv4/TCP parse word with a VLAN bit set (Classify.VlanLostExample) | test the VLAN bits on the raw parse word | not executed; rests on recalled header values | Classify.PacketInfoAsWritten (Classify.VlanTestDead, Classify.AsWrittenFlagsRssOnly, Classify.VlanLostExample) | Classify.PacketInfo (Classify.PacketInfoVlan) |
