# UN_Orion: verified models of the kernel's algorithms

UN_Orion is a freestanding kernel with its own network stack, page allocator, file system reader, HTML engine and
installer. This project models the parts of it that hold real algorithms and proves what those parts are for. Every
file is one component; `dafny verify dfyconfig.toml` checks them together.

| file | component |
|---|---|
| `Tcp.dfy`, `TcpNetwork.dfy`, `TcpLimits.dfy`, `TcpCalls.dfy` | the one-connection TCP client, the client in a network that loses, repeats and reorders packets, runs that show its limits, and what its calls answer, when they fail and when they succeed |
| `Virtio.dfy`, `VirtioWrap.dfy`, `VirtioFrames.dfy` | the legacy virtio receive queue shared by driver and device, what odd queue sizes lead to, and which packets reach the network code |
| `Fat16Geometry.dfy`, `Fat16Image.dfy`, `Fat16Volume.dfy`, `Fat16RoundTrip.dfy`, `Fat16Meaning.dfy` | the FAT16 image builder, the kernel's FAT16 reader, their agreement, and both by bytes and numbers |
| `Pmm.dfy`, `PmmMeaning.dfy` | the physical page allocator, and which memory it hands out |
| `Chunked.dfy`, `ChunkedMeaning.dfy` | the two parsers of HTTP chunked bodies, and exactly which bytes they accept |
| `AsterTree.dfy`, `AsterParser.dfy`, `AsterRoundTrip.dfy`, `AsterCascade.dfy`, `AsterMatching.dfy` | the HTML tree builder, which tree belongs to which text, the style cascade, and what selectors mean |
| `Url.dfy`, `UrlMeaning.dfy` | URL parsing, redirect resolution, the redirect loop, and each by how it is written |
| `Dhcp.dfy`, `DhcpClient.dfy`, `DhcpExchange.dfy` | DHCP messages, the DHCP client, and whole exchanges with a server |
| `Dns.dfy`, `DnsMeaning.dfy` | the DNS query encoder and response reader, and the reader on arbitrary bytes |
| `Checksum.dfy` | the Internet checksum in its uses |
| `History.dfy` | the browser's history |
| `Line.dfy` | the line rasteriser |
| `Install.dfy` | the media installer |
| `Div64.dfy` | 64-bit division on 32-bit targets |
| `Bytes.dfy`, `Arith.dfy` | shared field access and arithmetic facts |

## How the models are built

Code that changes state is a class or a method with loops, and its contract ties it to a function on values; the
theorems are about those functions and hold for every input, every run or every interleaving. What arrives from
outside is a parameter: `net_poll` and `netdev_poll` deliver arbitrary batches of packets, clock readings are
arbitrary numbers, devices may fail any request. Deadlines appear as the list of polls that fit before them.
Every lemma switches automatic induction off, so its proof is what its body says.
C integers are unbounded in Dafny, so each wrap-around that the code can reach is written out (`% U16`, `% U32`,
`% U64`).

The main results, component by component:

- **TCP.** In every run of loss, duplication and reordering of an honest peer's segments, what `net_tcp_read` has
  returned followed by what is buffered is exactly the prefix of the peer's stream that RCV.NXT counts, if and only if
  no accepted payload overflowed the buffer. A FIN is counted once, when it is in order and its segment ends below 2^32,
  and then the reads return the whole rest of the stream. A write that reports success means the peer holds exactly the
  data; it fails over one chunk that no one acknowledged.
- **Virtio.** In every interleaving of driver and device steps each buffer has exactly one owner, no slot that is still
  needed is overwritten, the driver reads every completion once and in order, across index wrap-around, and the
  callbacks get exactly the packets that the device wrote.
- **FAT16.** Whenever the geometry search succeeds, allocation does, the chains are disjoint, the kernel's reader mounts
  the image with the same geometry, finds the kernel and gets its bytes back through either copy of the table.
- **Pages.** Live, recycled and unscanned pages partition the eligible pages in every run of allocations and owned frees.
- **Chunked bodies.** A decided framing verdict never changes; both parsers agree on the common grammar; each accepts
  exactly a stated set of byte strings.
- **Aster.** Every text becomes a tree of depth at most 48 in preorder, and a printed document becomes its own tree; the
  cascade picks the greatest rule in (specificity, order); the 48-entry chain cap never shows.
- **URLs.** A resolved redirect parses back to the same host, port and scheme exactly when the buffers suffice and the
  path cannot run into the host; no redirect run leaves a secure hop for an insecure one.
- **DHCP, DNS, checksums, history, line, installer, division.** See the table below.

## Where the code does less than it seems to

For each of these a lemma says exactly when the code does what one would expect; where another lemma shows the bad case
happening, it is named second.

- `tcp_rcv_nxt` advances over bytes that did not fit the buffer; those bytes are acknowledged and lost
  (`TcpNetwork.RunKeeps`, `TcpLimits.OverflowLoses`).
- The FIN test adds sequence number and length in 64 bits, so an in-order FIN whose segment reaches 2^32 raises event 4
  but is not counted (`TcpNetwork.FinDelivered`, `TcpLimits.FinAtTopUncounted`).
- Acknowledgements are compared without wrap-around: a one-chunk write that never hears from the network succeeds
  exactly when SND.NXT passes 2^32 (`TcpNetwork.UnheardWrite`).
- The virtio driver accepts queue sizes that do not divide 2^16; for exactly these some run overwrites an offer that the
  device has not fetched (`VirtioWrap.OverwriteIff`, `VirtioWrap.WrapOverwrites`).
- `pmm_free_page` takes back pages that were never handed out (`Pmm.FreeKeepsIff`, `Pmm.UnownedFreeAccepted`),
  `pmm_free_pages` counts reserved pages as free (`Pmm.FreeReport`), and the scan's 64-bit bound test needs a page to
  spare below 2^64 (`Pmm.ScanGuardExact`).
- The chunk decoder stops at its buffer's end without an error (`Chunked.DecodesBody`).
- A base such as `http://h:80x` has a path without a leading slash; resolving against it glues path text to the host
  (`Url.ResolveParses`, `Url.GluedBase`).
- The DNS encoder accepts names of more than 127 labels, which the response reader then cannot skip
  (`Dns.QueryReadsBack`, `Dns.LongNameNotSkipped`).
- DHCP insists that mask, gateway and name server are stated, not that they are nonzero
  (`DhcpExchange.GrantedNonzeroIff`, `DhcpExchange.ZeroMaskGranted`), and an ACK's lease time of zero leaves the OFFER's
  in place (`DhcpMessage.OverlayIsConcatenation`).
- The installer's search for a transfer size refuses every source block size that does not divide 64 KiB, whatever the
  target's (`Install.FindChunk`, `Install.SharedSizeRefused`).

## Model

| member | source | states |
|---|---|---|
| TcpSegment.PacketParses | kernel/net.c:86-88 | every segment `send_tcp` emits is read back by the receiving side as the same ports, numbers, flags and data |
| TcpSegment.PacketVerifies | kernel/net.c:86-88 | every emitted segment sums to zero with its pseudo-header |
| TcpSegment.PacketBytes | kernel/net.c:87 | the segment byte by byte: ports, numbers, header length, flags, a window of 4096, no urgent data, the data |
| TcpClient.Engine.constructor | kernel/net.c:78-82 | an engine with no connection, nothing sent and an empty buffer |
| TcpClient.Engine.SendTcp | kernel/net.c:86-88 | one packet more is sent, SND.NXT advances over SYN, FIN and data modulo 2^32, nothing else changes |
| TcpClient.Engine.BuildPacket | kernel/net.c:87 | the bytes written are the checksummed segment for the current state |
| TcpClient.Engine.HandleTcp | kernel/net.c:100-106 | the whole state after a received packet: address, port and header filters, ACK, SYN-ACK, reset, data and FIN in the code's order |
| TcpClient.Engine.TakeData | kernel/net.c:104 | in-order data goes to the end of the buffer as far as it fits, RCV.NXT counts all of it, an ACK is sent |
| TcpClient.Engine.TakeFin | kernel/net.c:105 | a FIN raises event 4, is counted only when it continues RCV.NXT, and is acknowledged |
| TcpClient.Engine.Poll | kernel/net.c:107-118 | a poll handles every delivered packet in order |
| TcpClient.Engine.NetTcpConnect | kernel/net.c:129 | the state is reset and a SYN goes out |
| TcpClient.Engine.NetTcpRead | kernel/net.c:130 | returns what is buffered, as much as fits, whatever the event, and removes exactly it; otherwise polls, and answers -1 only when nothing is buffered after a poll that leaves the connection closed or reset, or after the last one |
| TcpClient.ReadEnds | kernel/net.c:130 | after which poll a read ends, why, and with what |
| TcpClient.ReadFailsIff | kernel/net.c:130 | a read fails if and only if nothing is buffered after any of its polls up to one that leaves the connection closed or reset, or the last |
| TcpClient.Engine.ShiftDown | kernel/net.c:130 | the buffer afterwards holds what lay behind the first n bytes |
| TcpClient.Engine.NetTcpWrite | kernel/net.c:131 | the write is the run of its chunks and waits, and its result says whether every chunk was acknowledged |
| TcpClient.Engine.SendChunk | kernel/net.c:131 | one chunk of at most 1200 bytes is sent and waited for |
| TcpClient.Engine.AwaitAck | kernel/net.c:131 | polls as long as the chunk is unacknowledged and the connection not reset, up to the last poll |
| TcpClient.AwaitEnds | kernel/net.c:131 | after which poll such a wait ends, and for which of its three reasons |
| TcpNetwork.Handshake | kernel/net.c:101-102 | connecting and receiving the SYN-ACK establishes the invariant of all later steps, with nothing counted and nothing lost, and packets of earlier connections may still arrive late as long as those used other ports |
| TcpNetwork.DataStageKeeps | kernel/net.c:104 | data is accepted only at the counted position, counts its full length, and keeps the buffer exact unless it overflows |
| TcpNetwork.FinStageKeeps | kernel/net.c:105 | the FIN is counted exactly when all data is counted and its segment ends below 2^32, never twice |
| TcpNetwork.AcceptKeeps | kernel/net.c:100-106 | one honest segment in any state keeps the receive and send invariants |
| TcpNetwork.ReceivedIsPrefix | kernel/net.c:86-88 | what a checking receiver takes from any packet of the client continues the written data |
| TcpNetwork.EventKeeps | kernel/net.c:100-106 | every network event keeps the invariant; exactness is lost exactly by an overflow |
| TcpNetwork.RunKeeps | kernel/net.c:100-106 | over every run, returned plus buffered bytes are the counted prefix of the peer's stream if and only if no accepted payload overflowed; a loss is never repaired |
| TcpNetwork.FinDelivered | kernel/net.c:105 | the count after a FIN; once the FIN is counted the prefix is the whole stream |
| TcpNetwork.ReadReturnsStream | kernel/net.c:130 | reads inside a run without overflow continue the peer's stream |
| TcpCalls.ReadsFinishStream | kernel/net.c:104-105 | after any run without overflow in which the FIN was counted, successive reads return just the rest of the stream, and a read fails exactly when the ones before have returned all of it |
| TcpCalls.ReadsDrain | kernel/net.c:130 | on a closed or reset connection successive reads hand out the buffer piece by piece |
| TcpCalls.EventCloses | kernel/net.c:105 | once the FIN is counted the connection stays closed |
| TcpCalls.ThreeWay | kernel/net.c:101-129 | the SYN carries the initial number and no data; the SYN-ACK is acknowledged with the next one |
| TcpCalls.EventAndAck | kernel/net.c:101-105 | the event and SND.UNA after any segment |
| TcpCalls.OthersIgnored | kernel/net.c:101 | packets of other hosts or ports, or with a bad header length, change nothing; all others are handled |
| TcpCalls.Answers | kernel/net.c:101-105 | how many acknowledgements a segment brings about, that they carry no data, and that the last covers all that is counted; RCV.NXT and the buffer change only with one |
| TcpCalls.WriteGivesUp | kernel/net.c:131 | a write fails over one 1200-byte chunk: all before it was handed over, and its wait ended by reset or by time without its acknowledgement |
| TcpCalls.AnsweredWrite | kernel/net.c:131 | a peer that acknowledges every chunk makes the write succeed |
| TcpNetwork.WriteAcknowledged | kernel/net.c:131 | a successful write handed over exactly its data and ends fully acknowledged |
| TcpNetwork.WriteDelivers | kernel/net.c:131 | if `net_tcp_write` returns 1, the peer holds exactly the earlier data followed by this data |
| TcpNetwork.OneChunkInFlight | kernel/net.c:131 | at every point of a write SND.UNA <= SND.NXT, at most 1200 bytes are outstanding, and a chunk is sent only when nothing is |
| TcpNetwork.WriteSettles | kernel/net.c:131 | a successful write ends with everything acknowledged and SND.NXT advanced by exactly its length |
| TcpNetwork.WritesInFlight | kernel/net.c:131 | the same bound at every point of any number of successive writes |
| TcpNetwork.UnheardWrite | kernel/net.c:101 | without any delivery a one-chunk write reports success if and only if SND.NXT passes 2^32 |
| TcpLimits.OverflowLoses | kernel/net.c:104 | for every buffer size there is a run from the handshake that loses a byte: all of the stream is counted and acknowledged, the last byte is nowhere |
| TcpLimits.FinAtTopUncounted | kernel/net.c:105 | from the handshake, an in-order FIN whose segment ends at 2^32 raises event 4 and is not counted |
| Checksum.FoldResidue | kernel/net.c:33 | the fold loop preserves the sum modulo 65535 and tells zero from nonzero |
| Checksum.WordSumIsValue | kernel/net.c:33 | the word sum, odd lengths padded, and the bytes read as one number have the same remainder modulo 65535 |
| Checksum.VerifiesIff | kernel/net.c:33 | a buffer verifies exactly when its word sum is a nonzero multiple of 65535 |
| Checksum.StoredChecksumVerifies | kernel/net.c:62-64 | for any aligned field, as at offset 10 of the IPv4 header, 2 of an ICMP message and 28 behind the TCP pseudo-header: the computed value stored in the zeroed field makes the buffer verify, and it is the only such value up to the two zeros |
| Checksum.OneWordChangeDetected | kernel/net.c:33 | changing one word of a verifying buffer is noticed unless 0x0000 and 0xffff are exchanged |
| Checksum.FoldLoop | kernel/net.c:33 | the loop ends with the folded sum |
| Checksum.Checksum16 | kernel/dhcp.c:160-171 | the checksum of the bytes, odd lengths included, up to the length whose sum fits 32 bits, and the wrapped value beyond |
| Checksum.MakeIpv4 | kernel/net.c:62-64 | the header written verifies, carries the given fields, and nothing else is touched |
| Checksum.Ipv4Fields | kernel/net.c:62-64 | the header field by field |
| Checksum.PseudoFields | kernel/net.c:65-67 | the pseudo-header field by field |
| Checksum.TcpChecksum | kernel/net.c:65-67 | the separate sums are the checksum of pseudo-header and segment together |
| VirtioRing.LayoutFits | kernel/netdev_virtio.c:15-16 | the three ring regions are disjoint, aligned and fit the reserved memory for every size up to 256 |
| VirtioRing.SlotsSurviveWrapIff | kernel/netdev_virtio.c:16-20 | 16-bit indices name the right slots for ever exactly when the queue size divides 2^16 |
| VirtioWrap.WrapOverwrites | kernel/netdev_virtio.c:16-20 | for every other size up to 256 there is a run from the initial queue in which the driver overwrites an offer the device has not fetched |
| VirtioWrap.OverwriteIff | kernel/netdev_virtio.c:16-20 | some interleaving overwrites an unfetched offer if and only if the queue size does not divide 2^16 |
| VirtioRing.RxQueue.Init | kernel/netdev_virtio.c:17 | every buffer is on offer after initialisation |
| VirtioRing.FreshInv | kernel/netdev_virtio.c:17 | the initial queue satisfies the invariant |
| VirtioRing.RxQueue.Poll | kernel/netdev_virtio.c:20 | a poll with any device activity before each of its accesses is a schedule of steps, ends with every completion read, and its callbacks are given what those steps deliver |
| VirtioRing.RxQueue.Turn | kernel/netdev_virtio.c:20 | one loop turn is a schedule of steps and makes progress |
| VirtioRing.RxQueue.LookUsed | kernel/netdev_virtio.c:20 | the loop test reads the used index, the device goes on before the entry is read |
| VirtioRing.RxQueue.TakeUsed | kernel/netdev_virtio.c:20 | reading a used entry is the step that hands its buffer to the driver |
| VirtioRing.RxQueue.RunCallback | kernel/netdev_virtio.c:20 | the callback is given the buffer behind the ten-byte header if id and length are in range, and nothing otherwise |
| VirtioRing.RxQueue.PostBuffer | kernel/netdev_virtio.c:20 | writing the available slot, with device steps in between |
| VirtioRing.RxQueue.PublishBuffer | kernel/netdev_virtio.c:20 | advancing the available index and `seen` together |
| VirtioRing.StepKeeps | kernel/netdev_virtio.c:20 | every step of either side keeps counters, slots and ownership |
| VirtioRing.EveryInterleaving | kernel/netdev_virtio.c:17-20 | from the initial queue, in every interleaving, each buffer has exactly one owner, the available index is `seen` plus the queue size modulo 2^16, and completions are read in order, each once |
| VirtioRing.CallbackOwnsBuffer | kernel/netdev_virtio.c:20 | while the callback reads a buffer neither the device nor the available ring has it |
| VirtioFrames.CallbacksGetPackets | kernel/netdev_virtio.c:20 | between any two moments outside a turn, in any interleaving, the callbacks get exactly the packets that the device wrote behind the header for completions of length 24 to 2058, in order, each once |
| VirtioFrames.StepGood | kernel/netdev_virtio.c:20 | every step keeps each buffer as written from its completion to its callback |
| Fat16Geometry.FindGeometry | tools/mkfat.py:31-54 | the first cluster size whose FAT length settles within sixteen rounds and whose cluster count is FAT16 |
| Fat16Geometry.FirstFitConsistent | tools/mkfat.py:31-54 | an accepted geometry is a fixpoint: its FAT is as long as its own cluster count needs |
| Fat16Geometry.ConsistentFits | tools/mkfat.py:31-54 | every cluster has a FAT entry and lies inside the image |
| Fat16Geometry.ChooseGeometry | tools/mkfat.py:57-74 | the smallest of the eight image sizes that suits the payload, or none when none does |
| Fat16Meaning.GeometryTable | tools/mkfat.py:31-74 | the geometry of each of the eight image sizes, and which payloads each suits: three quarters of the clusters for directories and files |
| Fat16Geometry.RoomyFits | tools/mkfat.py:64-71 | the accepted payload needs no more clusters than there are, and the clusters hold the files |
| Fat16Image.Allocator.constructor | tools/mkfat.py:108-112 | the empty table with its two reserved entries |
| Fat16Image.Allocator.EnsureClusters | tools/mkfat.py:115-120 | exactly when the clusters asked for exist |
| Fat16Image.Allocator.Alloc | tools/mkfat.py:123-140 | a chain of exactly the next n clusters, all other entries as before, or failure without effect |
| Fat16Image.BuildTable | tools/mkfat.py:143-146 | after a successful search allocation never reports a full image; the four chains follow one another |
| Fat16Image.BootSectorFields | tools/mkfat.py:82-106 | every boot-sector field the reader uses, at its offset |
| Fat16Meaning.BootSectorBytes | tools/mkfat.py:82-106 | the other bytes of the boot sector |
| Fat16Meaning.DirectoriesMeaning | tools/mkfat.py:179-189 | the entries of both directory clusters, the rest zero |
| Fat16Meaning.ImageBlank | tools/mkfat.py:81 | what no write covers is zero |
| Fat16Image.WriteFile | tools/mkfat.py:174-194 | the cluster-wise writes together place the whole file at its first cluster and touch nothing else |
| Fat16Image.WritesAscend | tools/mkfat.py:106-194 | the builder's nine writes follow one another inside the image, so none overwrites another |
| Fat16Image.ImageHolds | tools/mkfat.py:106-194 | each write is found in the finished image |
| Fat16Image.BuildImage | tools/mkfat.py:81-194 | the array assembled in place is that image |
| Fat16Volume.MountedInside | kernel/fat16.c:26-92 | whatever the boot sector says, an accepted volume lies inside its device |
| Fat16Meaning.MountIff | kernel/fat16.c:45-92 | a volume is mounted if and only if its boot sector, byte by byte, is that of a FAT16 volume with 4085 to 65524 clusters that fits the device |
| Fat16Volume.ScanFindsFirst | kernel/fat16.c:99-126 | an entry is found exactly when some entry has the name and all before it are passed over, and it is the first |
| Fat16Meaning.RootEntryMeaning | kernel/fat16.c:94-112 | entry k lies 32 * k bytes into the root directory |
| Fat16Meaning.EntryMeaning | kernel/fat16.c:111-122 | the fields of an entry, and that exactly deleted entries and those with the label bit are passed over |
| Fat16Volume.FindRoot | kernel/fat16.c:99-126 | the sector and entry loops are that scan, including its two ways to fail |
| Fat16RoundTrip.MountsBack | kernel/fat16.c:26-92 | every built image mounts with the builder's geometry |
| Fat16RoundTrip.FindsKernel | kernel/fat16.c:99-126 | looking up `KERNEL  ELF` gives the kernel's size and first cluster |
| Fat16RoundTrip.ChainIs | tools/mkfat.py:132-153 | following a chain in either FAT copy visits exactly its clusters |
| Fat16RoundTrip.FileReadsBack | tools/mkfat.py:174-194 | a file read along its chain and cut at its size is the file |
| Fat16RoundTrip.KernelRoundTrip | kernel/fat16.c:26-126 | mount, lookup and chain give back the kernel |
| Fat16RoundTrip.LoaderRoundTrip | tools/mkfat.py:179-192 | EFI leads to BOOT, BOOT to BOOTX64.EFI, and its chain gives back the loader |
| Fat16RoundTrip.ChainsDisjoint | tools/mkfat.py:143-146 | the four chains share no cluster and stay inside the data area |
| Fat16RoundTrip.MakeImage | tools/mkfat.py:77-194 | an image comes out exactly when some size suits, of the smallest such size; on any device that carries it, it mounts and serves the kernel |
| Pmm.ScanMatchesFreeTest | kernel/pmm.c:17-39 | the scan reaches exactly the pages that the free path's own test accepts |
| PmmMeaning.EligibleMeaning | kernel/pmm.c:16-39 | the pages handed out are exactly the aligned ones of conventional memory from 16 MiB up that share no byte with a kept extent; an empty extent keeps the page it begins inside |
| PmmMeaning.HandedInOrder | kernel/pmm.c:51-64 | without frees every such page is handed out once, in map order, and then none |
| PmmMeaning.FreeThenAlloc | kernel/pmm.c:52-69 | the page taken back last is the next one handed out |
| Pmm.EligibleNoDup | kernel/pmm.c:51-64 | disjoint descriptors never yield a page twice |
| Pmm.InitialInv | kernel/pmm.c:40-50 | after initialisation every eligible page is unscanned |
| Pmm.AllocKeeps | kernel/pmm.c:51-64 | an allocation keeps the partition, hands out an eligible page that was not live, and fails exactly when every eligible page is live |
| Pmm.OwnedPageAccepted | kernel/pmm.c:65-71 | a live page is taken back exactly when the stack has room |
| Pmm.FreeKeepsIff | kernel/pmm.c:65-71 | a call breaks the partition if and only if the page was never handed out, some page is in use and the stack has room; a live page never does |
| Pmm.UnownedFreeAccepted | kernel/pmm.c:51-71 | of two pages one is live and the other is freed by a caller who does not own it: it is taken back, and the next two allocations both hand it out |
| Pmm.RunKeeps | kernel/pmm.c:51-71 | over every run the partition holds, the counter is the number of live pages, and no live page is handed out again |
| Pmm.FreeReport | kernel/pmm.c:72-74 | the reported free pages exceed the allocatable ones by exactly the reserved pages |
| Pmm.ScanGuardExact | kernel/pmm.c:55 | the 64-bit bound test is the true one exactly when the extent ends a page below 2^64 |
| Pmm.Allocator.constructor | kernel/pmm.c:9-13 | the static state before initialisation |
| Pmm.Allocator.Init | kernel/pmm.c:40-50 | the pool afterwards is all eligible pages, and the total counts every page of every usable extent |
| Pmm.Allocator.AllocPage | kernel/pmm.c:51-64 | cursor and stack together behave as the pool: recycled pages last in first out, then scan order |
| Pmm.Allocator.ScanOn | kernel/pmm.c:54-63 | the next eligible page in map order, or nothing is left |
| Pmm.Allocator.Scan | kernel/pmm.c:55 | the next unreserved page of the current extent |
| Pmm.Allocator.NextDescriptor | kernel/pmm.c:57-62 | moving to the next descriptor loses no eligible page |
| Pmm.Allocator.IsConventional | kernel/pmm.c:28-39 | some usable descriptor covers the page |
| Pmm.Allocator.FreePage | kernel/pmm.c:65-71 | the result and the new pool for every argument |
| Chunked.FrameStable | kernel/tls.c:27 | for all byte strings, a verdict other than "incomplete" is unchanged by appending bytes |
| Chunked.CompleteOnlyAtEnd | kernel/tls.c:27 | no proper prefix of a message that is complete at its end has a verdict |
| Chunked.FrameAcceptsBody | kernel/tls.c:27 | every message of the common grammar is complete exactly at its end |
| ChunkedMeaning.CompleteIff | kernel/tls.c:27 | the test says "complete" at n if and only if the first n bytes are chunks, a line of size zero and trailers up to an empty line |
| ChunkedMeaning.MalformedIff | kernel/tls.c:27 | it says "malformed" if and only if after whole chunks comes a line that is no size line, or data without a line end |
| ChunkedMeaning.SizeLineMeaning | kernel/tls.c:27 | a size line is blanks, digits that fit 64 bits, blanks, then nothing or an extension |
| Chunked.DecodesBody | kernel/net.c:137-139 | the decoder returns the chunk data cut at the buffer, so all of it if and only if it fits |
| ChunkedMeaning.DecodeIff | kernel/net.c:137-139 | the decoder succeeds if and only if the text is chunks of nonzero size up to its end or a chunk of size zero, and returns their data cut at the buffer |
| ChunkedMeaning.ReadSizeMeaning | kernel/net.c:138 | its size field is digits of at most 1 MiB and nothing or an extension |
| Chunked.ChunkedComplete | kernel/tls.c:27 | the nested loops give the framing verdict |
| Chunked.ChunkTurn | kernel/tls.c:27 | one size line, its data and the line end after it |
| Chunked.ParseSize | kernel/tls.c:27 | blanks, hexadecimal digits within 64 bits, blanks, then nothing or an extension |
| Chunked.TrailerLoop | kernel/tls.c:27 | trailer lines up to an empty one |
| Chunked.DecodeChunked | kernel/net.c:137-139 | count, bytes and terminator left in the buffer; 0 for errors |
| Chunked.ReadSizeLoop | kernel/net.c:138 | the decoder's own size line: hexadecimal digits only, at most 1 MiB, extension skipped |
| AsterTree.ChildList | kernel/aster.c:22 | a node's child list holds exactly the nodes naming it as parent, in increasing order |
| AsterTree.AddAppends | kernel/aster.c:22 | adding a node ends its parent's list and changes no other link |
| AsterTree.AppendLinks | kernel/aster.c:22 | the links stay exactly what the parent fields say |
| AsterTree.WalkGrows | kernel/aster.c:22 | a node added on the rightmost path comes last in preorder |
| AsterTree.AddKeeps | kernel/aster.c:42 | adding below the innermost open element keeps tree, root path, depth and preorder |
| AsterTree.PushKeeps | kernel/aster.c:42 | so does opening the newest node |
| AsterTree.PopKeeps | kernel/aster.c:42 | and closing an element with everything opened inside it |
| AsterParser.StepKeeps | kernel/aster.c:42 | every token keeps the builder's invariant |
| AsterParser.ParsedTree | kernel/aster.c:42 | for every text: exact child lists, depth at most 48, every node below the root, preorder equals creation order |
| AsterRoundTrip.ParsesBack | kernel/aster.c:29-42 | for every document of texts, comments, declarations, void and self-closing elements, raw elements and elements nested at most 47 deep, parsing its print gives exactly its kinds, tags, parents and attributes, up to 384 nodes |
| AsterRoundTrip.VoidsHaveNoChildren | kernel/aster.c:29-42 | whatever the text, no parent is a br, hr, img, style or script |
| AsterRoundTrip.EndTagMeaning | kernel/aster.c:42 | an end tag closes the innermost open element of its tag with all inside it, or does nothing |
| AsterRoundTrip.TagIdMeaning | kernel/aster.c:23-27 | tag names in any case, b and i for strong and em, unknown otherwise |
| AsterRoundTrip.InkIff | kernel/aster.c:31 | a run of text leaves a node unless it is blanks and non-breaking spaces |
| AsterParser.Document.constructor | kernel/aster.c:30 | a document over its node array |
| AsterParser.Document.Init | kernel/aster.c:30 | only the root |
| AsterParser.Document.Add | kernel/aster.c:22 | the node array afterwards, or -1 and no change when it is full |
| AsterParser.Document.Last | kernel/aster.c:22 | the end of the sibling list |
| AsterParser.Document.ParseHtml | kernel/aster.c:42 | the node array is the tree of the text |
| AsterParser.Document.Consume | kernel/aster.c:42 | one token's effect on nodes and stack |
| AsterCascade.AcceptedShape | kernel/aster.c:35 | what accepted selectors look like |
| AsterMatching.SelectorMeaning | kernel/aster.c:35 | which texts are accepted as which selector |
| AsterMatching.MatchesMeaning | kernel/aster.c:44-47 | what each kind of selector matches: tag, id, or a word of the class attribute |
| AsterMatching.ClassMembers | kernel/aster.c:46 | a class selector matches exactly the members of the list that the attribute spells |
| AsterCascade.SpecificityOrder | kernel/aster.c:48 | the engine's numbers order selectors as section 6.4.3 of CSS 2.1 does |
| AsterCascade.Winner | kernel/aster.c:49 | the rule found is a candidate and no candidate is above it in (specificity, source order) |
| AsterCascade.WinnerUnique | kernel/aster.c:49 | there is only one such rule |
| AsterCascade.FlagsMembers | kernel/aster.c:49 | a flag is set exactly when some matching rule sets it |
| AsterCascade.ApplyRules | kernel/aster.c:49 | one pass leaves the winners' scale and colour and all matching flags |
| AsterCascade.CollectChain | kernel/aster.c:50 | the last at most 48 nodes of the path from the root, innermost first |
| AsterCascade.StyleNode | kernel/aster.c:50 | rules, then inline style |
| AsterCascade.Resolve | kernel/aster.c:50 | the style is the cascade along those nodes, outermost first |
| AsterMatching.OwnStyleLast | kernel/aster.c:49-50 | a node has its own inline colour and scale, else those of its winning rule, else what it had from above |
| AsterMatching.BaseMeaning | kernel/aster.c:43-50 | what headings, strong and code on the way up give before any rule |
| AsterCascade.RootFirst | kernel/aster.c:50 | applying the attribute-less root first changes nothing below it |
| AsterCascade.CapNeverMatters | kernel/aster.c:42-50 | over every parsed document the capped chain gives the same style as the full root path |
| Url.ParsedShape | kernel/net.c:133 | what parsing can produce: bounded nonempty host without separators, a port from 1 to 65535, a path without leading digit |
| UrlMeaning.ParseMeaning | kernel/net.c:133 | a text parses if and only if it is written as scheme, host, maybe a port, and a rest, and what it parses to |
| Url.DecimalValue | kernel/net.c:151 | the printed port reads back as the port |
| Url.PortText | kernel/net.c:151 | the reversed digit loop prints the decimal port |
| Url.PrintedParses | kernel/net.c:133 | a printed URL reads back as host, port, path and scheme exactly when the path fits |
| Url.GluedShorter | kernel/net.c:154 | otherwise host or path differ from what was printed |
| Url.ResolveParses | kernel/net.c:154 | a same-origin reference resolves to a URL that reads back as the base's host, port, scheme and the new path if and only if the buffers suffice and the path cannot run into the host |
| Url.GluedBase | kernel/net.c:154 | from `http://h:80x` the reference `y` leads to the host `hxy` |
| Url.RootRelativeParses | kernel/net.c:154 | for root-relative references the buffers alone decide |
| UrlMeaning.ReferenceKinds | kernel/net.c:154 | what each kind of reference becomes |
| UrlMeaning.DirectoryMeaning | kernel/net.c:154 | the directory of a path ends with the last slash before the query or fragment |
| UrlMeaning.TailMeaning | kernel/net.c:154 | the path of a relative reference |
| Url.SecureStaysSecure | kernel/net.c:154 | whatever a secure URL redirects to is secure if it parses |
| Url.NoDowngrade | kernel/net.c:157 | in every redirect run every hop after a secure hop is secure |
| UrlMeaning.HopsMeaning | kernel/net.c:157 | each hop goes to what the response before resolves to, at most four, and why a run stops |
| Url.HttpGet | kernel/net.c:157 | the loop contacts exactly those hops, at most four |
| DhcpMessage.EncodedReadsBack | kernel/dhcp.c:104-131 | an encoded option list reads back as itself, whatever surrounds it |
| DhcpMessage.ServerMessageUnderstood | kernel/dhcp.c:92-133 | a well-formed reply means the lease its options state, the last one of each kind |
| DhcpMessage.LeaseOfSnoc | kernel/dhcp.c:113-129 | one more option changes exactly its own field |
| DhcpMessage.LeaseMeaning | kernel/dhcp.c:113-129 | each field of a lease by its option number: the last option of the right length |
| DhcpMessage.ParseReply | kernel/dhcp.c:92-133 | the option loop yields that meaning, or refuses a foreign, truncated or untyped message |
| DhcpMessage.PutHeader | kernel/dhcp.c:43-53 | the fixed part of the message on a zeroed packet |
| DhcpMessage.PutOption | kernel/dhcp.c:54-59 | an option appended behind the earlier ones |
| DhcpMessage.BuildOptions | kernel/dhcp.c:43-73 | the finished packet has the minimum length and its option list reads back |
| DhcpMessage.BuildDiscover | kernel/dhcp.c:75-79 | the message byte by byte: header fields at their offsets, message type 1, client id, maximum size, the four parameters, no address or server; nothing is written to a short buffer |
| DhcpMessage.BuildRequest | kernel/dhcp.c:81-90 | likewise with message type 3, exactly one option 50 of the requested address and exactly one option 54 of the server |
| DhcpMessage.OverlayIsConcatenation | kernel/dhcp.c:268-284 | overlaying ACK on OFFER is reading both option lists as one, if and only if the ACK does not state time zero over a nonzero one |
| DhcpClient.FrameReadsBack | kernel/dhcp.c:183-212 | a broadcast frame between any two ports decapsulates to its payload at the target port |
| DhcpClient.FrameAddresses | kernel/dhcp.c:183-212 | who the frame is from and for |
| DhcpClient.PayloadMeaning | kernel/dhcp.c:214-231 | what is taken for a datagram between two ports |
| DhcpClient.ReplyChecks | kernel/dhcp.c:92-103 | what a reply that is taken at all repeats |
| DhcpClient.BuildFrame | kernel/dhcp.c:183-212 | the bytes of the frame, IPv4 checksum included |
| DhcpClient.Client.constructor | kernel/dhcp.c:153-158 | the static state at start |
| DhcpClient.Client.SendBroadcast | kernel/dhcp.c:183-212 | one frame more, whose header verifies and which delivers the payload; oversized payloads send nothing |
| DhcpClient.Client.Rx | kernel/dhcp.c:214-246 | only a reply for this transaction and address counts: NAK always, OFFER and ACK only in their phase |
| DhcpClient.Client.Poll | kernel/dhcp.c:260 | a batch is decided by its last decisive reply |
| DhcpClient.Client.Wait | kernel/dhcp.c:248-266 | succeeds exactly when the first decided turn before the deadline is decided by the wanted message; everything sent delivers the packet; frames sent and the count at each poll are those of the transmission plan |
| DhcpClient.Client.WaitTurn | kernel/dhcp.c:254-262 | one turn: a transmission if it is due, then a poll and its verdict |
| DhcpClient.SentBeforePolls | kernel/dhcp.c:253-260 | the plan sends in the first turn, so something has gone out before every poll |
| DhcpClient.SendsSpaced | kernel/dhcp.c:256-259 | after a transmission the next one is in the first turn whose clock is 400 ms later, modulo 2^32; a clock of 0xffffffff counts as never |
| DhcpClient.Client.Send | kernel/dhcp.c:256-258 | a retransmission is the same message again |
| DhcpClient.AwaitedArrived | kernel/dhcp.c:248-266 | an awaited reply arrived before the deadline with no decisive reply in an earlier turn or behind it in its own |
| DhcpClient.GrantedLease | kernel/dhcp.c:286-326 | a granted lease comes from an OFFER received in phase 1 and an ACK received in phase 2, both with matching transaction id and address, and is their joint reading with nonzero address and stated mask, gateway and name server |
| DhcpClient.Client.Acquire | kernel/dhcp.c:286-326 | returns 1 exactly for such an exchange, else the caller's lease is unchanged; what it sends is first DISCOVERs and then only REQUESTs for the address, bytes 16 to 19, and the last server option of an OFFER that arrived before the deadline |
| DhcpExchange.ServerUnderstood | kernel/dhcp.c:92-133 | a broadcast server frame means to the client the lease its options state |
| DhcpExchange.ExchangeSucceeds | kernel/dhcp.c:286-326 | a dialogue with a well-formed server is granted if and only if the joint lease has an address and states mask, gateway and name server |
| DhcpExchange.GrantedNonzeroIff | kernel/dhcp.c:286-326 | in the lease of every granted exchange mask, gateway and name server are nonzero exactly when the last option of each kind in OFFER and ACK together is |
| DhcpExchange.ZeroMaskGranted | kernel/dhcp.c:318-320 | for every hardware address and transaction id there is an exchange of frames that is granted with mask 0.0.0.0 |
| Dns.LabelsSpell | kernel/net.c:126 | the labels of a host name, put back together, spell it |
| Dns.QNameMeaning | kernel/net.c:126 | a host name is accepted exactly when its labels have 1 to 63 bytes and fit, and its labels are what is written |
| Dns.WireReadsBack | kernel/net.c:126 | labels on the wire read back as the labels |
| Dns.QueryReadsBack | kernel/net.c:98 | the header asks one recursive question of this id; the question decodes to the host's labels, type A and class IN, and skipping its name stops at QTYPE if and only if there are at most 127 labels |
| Dns.LongNameNotSkipped | kernel/net.c:98 | host names of 128 to 244 one-byte labels are accepted, and their question is not skipped |
| Dns.EncodeQuery | kernel/net.c:126 | the query buffer, or refusal |
| Dns.WriteLabel | kernel/net.c:126 | one label behind its length byte, or refusal |
| Dns.CopyLabel | kernel/net.c:126 | the characters of one label in place, or refusal beyond 63 or the limit |
| Dns.SkipNameLoop | kernel/net.c:98 | the position behind a name, or one past the end |
| Dns.WireSkips | kernel/net.c:98 | a well-formed name, compressed or not, is skipped exactly when the loop's budget covers its labels |
| Dns.NameSkips | kernel/net.c:98 | every name of at most 255 bytes is skipped exactly |
| DnsMeaning.OnlyNamesSkipped | kernel/net.c:98 | whatever is skipped inside a message is a name of fewer than 128 labels |
| Dns.SkipQuestionsLoop | kernel/net.c:99 | the position behind the questions |
| Dns.ScanLoop | kernel/net.c:99 | the outcome of the answer records |
| Dns.Resolver.HandleUdp | kernel/net.c:99 | result and answer after any datagram; foreign datagrams change nothing |
| Dns.ResponseUnderstood | kernel/net.c:99 | every well-formed successful response yields the first A/IN record of length 4, or -1 |
| DnsMeaning.ScanMeaning | kernel/net.c:99 | on any bytes, an address is found if and only if one of the announced records is one and all before it lie inside the message |
| DnsMeaning.HeardMeaning | kernel/net.c:99 | which datagrams count, which of them fail the query, and what is read of the others |
| Dns.DatagramUnderstood | kernel/net.c:99 | the same behind a UDP header from port 53 to the query's port |
| Dns.FirstAddressIsFirst | kernel/net.c:99 | no record before the chosen one qualifies |
| History.MoveShows | kernel/vela.c:32 | one operation keeps the twelve slots a window onto the linear history |
| History.VisitMeaning | kernel/vela.c:32 | a visited page is the current and last one behind what was current |
| History.BackForward | kernel/vela.c:39 | back and forward move by one page where there is one, and undo each other |
| History.RunShowsSuffix | kernel/vela.c:32-39 | over every run the slots are a contiguous end of the linear history with the same current page; missing are exactly the pages more than eleven behind the deepest point; index bounds; no equal neighbours |
| History.Browser.constructor | kernel/vela.c:37 | the empty history |
| History.Browser.Hist | kernel/vela.c:32 | the slots after recording a page: no repeat, forward pages dropped, oldest page out when full |
| History.ShiftDown | kernel/vela.c:32 | the copy loop moves every slot one down |
| History.Browser.NavPush | kernel/vela.c:33 | every page of a redirect chain that loads is recorded, at most three |
| History.RecordedMeaning | kernel/vela.c:33 | a navigation records its pages up to the first that does not load, three at most, and succeeds exactly when all of these load |
| History.Browser.GoBackwards | kernel/vela.c:39 | moves back exactly when possible and the page loads |
| History.Browser.GoForwards | kernel/vela.c:39 | likewise forward |
| History.Session | kernel/vela.c:32-39 | a whole session leaves the bounded history of the operations performed |
| Line.RoundedBounds | kernel/desktop.c:137 | the rounded coordinate is within half a step of the exact one |
| Line.ErrorDecides | kernel/desktop.c:137 | the two tests on the error term choose the ideal line's next point; the term stays within three times the longer extent |
| Line.LineReaches | kernel/desktop.c:137 | max(DX, DY) + 1 points, from start to target |
| Line.LineAccurate | kernel/desktop.c:137 | every point lies in the box and satisfies 2*abs(i*DY - j*DX) <= max(DX, DY) |
| Line.LineConnected | kernel/desktop.c:137 | consecutive points are distinct neighbours |
| Line.PaintLine | kernel/desktop.c:137 | the integer loop ends and plots exactly the rounded exact line |
| Install.FindSingleTarget | boot/main.c:65-101 | succeeds exactly when one single device qualifies, and picks it |
| Install.ChooseTarget | boot/main.c:153-190 | the questions before the copy, and the one target they lead to |
| Install.FindChunk | boot/main.c:117-121 | the smallest size from 64 KiB to 1 MiB that is whole blocks on both devices; none if and only if the source block size does not divide 64 KiB or there is no such size |
| Install.OddSourceRefused | boot/main.c:117-121 | no tried size suits a source block size that does not divide 64 KiB |
| Install.UsualSizesFit | boot/main.c:117-121 | block sizes that divide 64 KiB always have such a size |
| Install.SharedSizeRefused | boot/main.c:117-121 | a source with 520-byte blocks is refused by a 512-byte target, although 66560 bytes are whole blocks on both |
| Install.CopyChunk | boot/main.c:132-140 | one read and one write at the same byte offset |
| Install.CopyLoop | boot/main.c:129-144 | on success the target's front equals the source; bytes behind the source's length never change |
| Install.CopyInstallMedia | boot/main.c:103-151 | the same for the whole routine; refused exactly when the source is not whole target blocks or the block sizes have no transfer size, and without device errors it succeeds on a large enough target |
| Install.OfferInstall | boot/main.c:153-202 | a copy is started if and only if the source is present read-only media, both keys are pressed and exactly one other handle is present, writable, whole-disk media large enough in whole blocks; only that disk changes, and on success it begins with the source's bytes and is else as before |
| Div64.Step | kernel/i686/builtins.c:8-11 | one bit of the loop: the shift loses nothing and the upper part of n stays q*d + r |
| Div64.UDivMod64 | kernel/i686/builtins.c:5-14 | n = q*d + r with r < d for every nonzero d; all ones and n for a zero divisor |
| Div64.DivisionUnique | kernel/i686/builtins.c:5-14 | no other quotient and remainder satisfy that |

## Left out

- The i686 build of the TCP client: lengths are unbounded here as on the 64-bit kernel, where `seq+data_len` does not wrap.
- Next-hop resolution: `send_tcp` and DHCP transmission are atomic, as with a cached hardware address.
- The waits of `net_tcp_connect` and `dns_lookup`: their loops only poll; the handlers they drive are modelled.
- `net_tcp_close`, ARP, ICMP echo, raw sockets and the Ethernet dispatch: easy or no state worth proving.
- TcpNetwork.Handshake: local ports count up from 49152 and start over at 2^16 (kernel/net.c:129); a late data packet from the same port pair one round earlier is not modelled.
- TcpNetwork.RunKeeps: runs are of a peer that follows section 3.10.7 of RFC 9293 in what it sends; a hostile peer is not modelled.
- Real time: clocks are arbitrary readings, so no statement bounds a duration.
- Virtio transmit, PCI set-up and device reset: register traffic and bounded polling.
- VirtioRing.EveryInterleaving: the device returns only ids it holds and the queue size divides 2^16; memory ordering is that of the fences in the code.
- VirtioFrames.CallbacksGetPackets: a length that fits the buffer is the number of bytes that the device has written there.
- AsterRoundTrip.ParsesBack: nesting beyond 47 levels, where the open-element stack is full, is covered by `AsterParser.ParsedTree` only.
- Subdirectories, FAT writing and file reading in the kernel: not in the repository; chains are read as the FAT format prescribes.
- Fat16Geometry.FindGeometry: beyond the eight image sizes nothing is claimed about which sizes make the sixteen rounds settle, only about the result.
- Pmm.Allocator.Init: the firmware map is a list of decoded descriptors, the scan position an index instead of a byte offset, and the page counters are unbounded.
- HTTP header parsing, content lengths and the empty-body check of `net_http_get`: the framing test and the decoder are modelled on their own.
- Aster text storage, entity decoding, attribute and CSS text parsing, title and links: structure and style only; the attribute parser is a parameter and text capacity is taken as sufficient.
- Aster layout and painting: user interface.
- URL canonicalisation and script handling of the browser: easy string matching; histories take the loaded URLs as given, each within its buffer.
- Line.PaintLine: coordinates are unbounded; by `Line.ErrorDecides` the error term fits 32 bits while three times the longer extent does.
- Install.CopyInstallMedia: devices are byte arrays whose size is a whole number of blocks below 2^64; messages and key timeouts are not modelled.
- BearSSL, random numbers, calendar conversion, interrupt and port set-up, other network drivers, terminal and fonts: foreign code, hardware effects or easy.
