# CloudFlow: a verified model of the packet-to-sink pipeline

CloudFlow captures DNS and DHCP packets, correlates DNS queries with their responses, hands events to
Redis Streams, and delivers them from there to an HTTP sink. This project models the parts of it that
carry a written contract or a delicate algorithm, in the order a packet meets them, and proves what
each of them promises for all inputs and all runs.

`dafny verify dfyconfig.toml` checks everything.

| files | what they model |
|---|---|
| `Bpf`, `BpfFilters`, `DnsFilter`, `DhcpFilter` | the two-pass classic-BPF assembler, an interpreter for both of its languages, and the two filter programs with the exact predicate each decides |
| `Decap`, `FrameFormat`, `FilterAgreement` | Ethernet, VLAN, IPv4, IPv6, UDP and TCP decapsulation, the frames as their writers lay them out, and the agreement with the kernel filter |
| `DnsName`, `DnsRdata`, `DnsMessage` | name decompression, the record-data checks and EDNS options, and the walk over a DNS message |
| `TxnKey`, `PendingList`, `SlotTable`, `Correlation` | the pending-query table: `PendingList` is the simple ordered list of pending queries, with all the properties of whole runs; `Correlation` is the table as written, a pool of slots threaded through hash chains, a FIFO and a free list, proved to be that list |
| `DnsStage` | key building, leg classification, the dispatch of a packet, and whole runs of the stage |
| `Dhcpv4Options` | the option walk, overload and RFC 3396 concatenation |
| `SpscQueue`, `QueuePolicy` | the lock-free ring as a two-thread state machine, and the backpressure policies |
| `RedisProducer` | batching, reconnect-and-retry-once, and loss accounting of the producer thread |
| `HttpDeliver`, `SinkConsumer` | retry and poison bisection, and the acknowledgement protocol against a consumer group |
| `Sha256`, `Sha256Constants`, `EventId` | streaming SHA-256 against the one-shot standard, and the event identity |
| `Crc16Table`, `RedisSlot` | the table-driven CRC-16 against polynomial division, and cluster slots |
| `JsonLog`, `LogUtf8` | bounded JSON log lines, and when they stay valid UTF-8 |
| `Bytes`, `Modular` | shared number types and remainder arithmetic |

Clocks, sockets, allocators, stop requests and servers are arbitrary inputs: lists of answers that a
method consumes one at a time. A statement about a method holds for every such list. Emissions, POSTs
and commands are logged, and most whole-run properties speak of the log, at every prefix of it.

A class keeps the fields of the C object it models; its methods are proved against functions on
values, and the lemmas about those functions carry the properties.

## Where the code decides otherwise than its comments

- The name decoder counts length octets and label bytes but not the final zero towards its limit of
  255, so it accepts names of 256 octets on the wire, one more than RFC 1035 allows:
  `DnsName.UncompressedDecodesIff`, `DnsName.OverlongNameAccepted`.
- A name inside record data is not held to the length of that data: `DnsRdata.FineIffWellFormed`,
  `DnsMessage.NameMayOutrunData`.
- The transaction key is built with string functions from a dotted name, so names that differ behind
  a NUL, or in whether a dot is a byte or a boundary, share a key: `DnsStage.WireKeysEqualIff`,
  `DnsStage.DifferentNamesOneKey`. Names without such bytes are kept apart by everything but ASCII
  case: `DnsStage.OrdinaryKeysEqualIff`.
- For a frame with no port 53 the key builder says it orients both halves alike, but it takes the
  destination for the server in both directions: `DnsStage.ReversedKeysEqualIff`,
  `DnsStage.OffPortHalvesDoNotMeet`.
- The tick says it drains every expired entry because the FIFO is time-ordered, but nothing enforces
  that order: it is the order of arrival. `PendingList.TickIsExactIff` says exactly when the sweep is
  complete, `PendingList.TickLeavesExpiredBehind` shows a run in which it is not, and capture times
  that never decrease are enough.
- At a late shutdown the producer counts what is queued before it empties the queue. Events pushed in
  between are popped without being counted; `RedisProducer.Producer.DropEverything` says how many, and
  that there are none with a quiescent upstream; `RedisProducer.LateEventIsUncounted` is such a run.
- On a stop the consumer is to flush the batch once and acknowledge what succeeded. The delivery
  checks the same stop flag before its first POST, so with HTTP that flush sends nothing and the batch
  stays pending: `SinkConsumer.Consumer.FinalFlush`, `SinkConsumer.ShutdownStrandsBatch`. Nothing is
  lost by it.
- A stop while the consumer is reconnecting leaves it without a Redis context, and in stdout mode the
  final flush then issues an acknowledgement for each batched entry on that null context; with HTTP, or
  with an empty batch, it issues none. `SinkConsumer.Consumer.RunForever` counts these commands exactly,
  `SinkConsumer.ShutdownWithoutContext` is a run with one. The model lets such a command send nothing;
  what the Redis client library does with a null context is not part of this model.
- The event identity's length prefix keeps 32 bits. It separates fields as long as the host and the
  interface name stay below 2^32 bytes, and not beyond: `EventId.PreimageIsInjective`,
  `EventId.HugeNamesCollide`. The frame comes last, and may have any length.
- The log escaper promises never to emit a partial byte and keeps bytes whole, but it may cut a
  character of several bytes, and the line is then not valid UTF-8: `LogUtf8.LogIsUtf8Iff`,
  `LogUtf8.LineIsSplit`.

## Model

| member | source | states |
|---|---|---|
| `TxnKeys.KeyEqualIffSignificant` | sources/cloudflow-source-dns/src/correlation.c:66-134 | two keys are equal exactly when the hash consumes the same bytes for them, so the hash and the comparison never disagree |
| `TxnKeys.KeyEqualIsEquivalence` | sources/cloudflow-source-dns/src/correlation.c:117-134 | key equality is reflexive, symmetric and transitive |
| `PendingList.RunKeepsTable` | sources/cloudflow-source-dns/src/correlation.c:311-417 | over every run of calls the pending list never exceeds the capacity and never holds two equal keys |
| `PendingList.RunIsBalanced` | sources/cloudflow-source-dns/src/correlation.h:42-55 | at every point of every run the query contexts taken in are those emitted plus those pending (as multisets), each response context has been emitted once in order, queries = observed + unanswered + collision + drop + pending, and responses = observed + unmatched |
| `PendingList.EveryQueryEmittedExactlyOnce` | sources/cloudflow-source-dns/src/correlation.c:296-309 | after the teardown drain the query contexts emitted are exactly those ever handed in, each as often as it was handed in |
| `PendingList.RunIsSound` | sources/cloudflow-source-dns/src/correlation.c:369-407 | every emission of every run is justified: OBSERVED pairs an earlier query with a later response of an equal key and carries their time difference and plausibility flag; UNANSWERED and UNMATCHED carry a context that was handed in with that key |
| `PendingList.TickIsExactIff` | sources/cloudflow-source-dns/src/correlation.c:409-417 | a tick leaves no expired query behind exactly when no expired query stands behind a live one in the list; this is the condition under which the FIFO sweep is complete |
| `PendingList.TickLeavesExpiredBehind` | sources/cloudflow-source-dns/src/correlation.c:409-417 | two queries with decreasing capture times and a tick that leaves the second behind although it has expired |
| `PendingList.TickEvictsExactlyTheExpired` | sources/cloudflow-source-dns/src/correlation.c:225-238 | when capture times never decrease over the run, a tick keeps exactly the unexpired queries and emits exactly the expired ones, oldest first |
| `PendingList.QueryDoes` | sources/cloudflow-source-dns/src/correlation.c:311-367 | a query, case by case on the list: up to eight timed-out queries at the head are emitted UNANSWERED in order, full table or not; then an equal key is replaced and emitted, or the query is appended if there is room, or the oldest or the newest gives way as the policy says and is emitted; with every counter |
| `PendingList.ResponseDoes` | sources/cloudflow-source-dns/src/correlation.c:369-407 | a response, case by case: the one query with an equal key leaves and is emitted OBSERVED with rtt and validity, or the response is emitted UNMATCHED; with every counter, and without a sweep |
| `PendingList.SweepShowsInTrace` | sources/cloudflow-source-dns/src/correlation.c:311-321 | a run with room to spare in which a query sweeps one that has timed out, so that its late response is unmatched |
| `PendingList.RunCountsEmissions` | sources/cloudflow-source-dns/src/correlation.h:109-117 | at every point of every run each counter is the number of emissions of its kind: observed, invalid rtt, unmatched, and unanswered by timeout, collision or a full table |
| `PendingList.AmortizedSweepIsBounded` | sources/cloudflow-source-dns/src/correlation.c:311-321 | the sweep every query starts with evicts exactly the timed-out queries at the head, at most eight, and emits them first; the query emits at most one more |
| `PendingList.ExpireDropsPrefix` | sources/cloudflow-source-dns/src/correlation.c:225-238 | the sweep removes a prefix of the list and appends one UNANSWERED emission for each removed entry |
| `PendingList.DrainEmptiesOldestFirst` | sources/cloudflow-source-dns/src/correlation.c:296-309 | the teardown emits every pending context, oldest first, and leaves nothing pending |
| `PendingList.ResponseMeetsPendingQuery` | sources/cloudflow-source-dns/src/correlation.c:369-407 | a response whose key equals that of a pending query is emitted OBSERVED with that query's context, and rtt_valid exactly when 0 <= rtt <= timeout |
| `Correlation.KeyHashIsCongruent` | sources/cloudflow-source-dns/src/correlation.c:79-134 | keys that compare equal have equal hashes |
| `Correlation.NextPow2` | sources/cloudflow-source-dns/src/correlation.c:242-249 | the smallest power of two that is at least n: it is a power of two and less than 2n |
| `Correlation.Correlator.constructor` | sources/cloudflow-source-dns/src/correlation.c:251-294 | a new table is well formed, all slots free, and stands for the empty list |
| `Correlation.Correlator.New` | sources/cloudflow-source-dns/src/correlation.c:251-294 | null exactly for an invalid configuration; otherwise an empty table whose bucket count is a power of two and at least the capacity |
| `Correlation.Correlator.FifoAppend` | sources/cloudflow-source-dns/src/correlation.c:143-154 | the doubly linked FIFO gains the slot at its tail; nothing but prev and next changes |
| `Correlation.Correlator.FifoUnlink` | sources/cloudflow-source-dns/src/correlation.c:156-168 | the FIFO loses the slot and keeps the order of the others; nothing but prev and next changes |
| `Correlation.Correlator.ChainUnlink` | sources/cloudflow-source-dns/src/correlation.c:172-187 | the slot's predecessor on the chain, or the bucket head, skips it, and nothing else changes |
| `Correlation.Correlator.EntryRelease` | sources/cloudflow-source-dns/src/correlation.c:172-194 | all three index structures stay well formed, and the abstract list loses exactly this entry |
| `Correlation.Correlator.EntryFind` | sources/cloudflow-source-dns/src/correlation.c:197-208 | the slot of the one pending entry with an equal key, NIL exactly when there is none |
| `Correlation.Correlator.EvictOldestEntry` | sources/cloudflow-source-dns/src/correlation.c:212-220 | refines eviction of the head of the abstract list with the given counter |
| `Correlation.Correlator.EvictExpired` | sources/cloudflow-source-dns/src/correlation.c:225-238 | refines the abstract bounded sweep, and counts what it evicted |
| `Correlation.Correlator.OnQuery` | sources/cloudflow-source-dns/src/correlation.c:311-367 | the table stays well formed and stands for the abstract list after a query: sweep, collision replacement, table-full drop of either end, or insertion |
| `Correlation.Correlator.Replace` | sources/cloudflow-source-dns/src/correlation.c:327-341 | a collision emits the older query and reuses its slot as the newest entry |
| `Correlation.Correlator.Acquire` | sources/cloudflow-source-dns/src/correlation.c:357-366 | a new key takes the first free slot and becomes the newest entry |
| `Correlation.Correlator.OnResponse` | sources/cloudflow-source-dns/src/correlation.c:369-407 | the table stays well formed and stands for the abstract list after a response |
| `Correlation.Correlator.Tick` | sources/cloudflow-source-dns/src/correlation.c:409-417 | refines the unbounded sweep |
| `Correlation.Correlator.Free` | sources/cloudflow-source-dns/src/correlation.c:296-309 | refines the teardown drain |
| `Correlation.RunTable` | sources/cloudflow-source-dns/src/correlation.c:251-417 | any sequence of calls on a fresh table, then its teardown, emits exactly the trace of the ordered list, with its counters, and hands every query context back exactly once |
| `SlotTable.Released` | sources/cloudflow-source-dns/src/correlation.c:172-194 | releasing a slot keeps every slot either free, or once in the FIFO and once on the chain of its key's bucket |
| `SlotTable.Acquired` | sources/cloudflow-source-dns/src/correlation.c:357-366 | acquiring a slot keeps that partition and both kinds of list |
| `Bpf.ResolutionPreservesMeaning` | libs/cloudflow-capture/cf_bpf.c:77-108 | when all labels can be resolved, the relative-jump program returns on every packet what the labelled program returns, and the labelled program terminates within its length |
| `Bpf.PatchResolves` | libs/cloudflow-capture/cf_bpf.c:84-105 | patching the recorded fixups in order gives every instruction the offsets its labels stand for |
| `Bpf.FixupsOkIffResolvable` | libs/cloudflow-capture/cf_bpf.c:84-105 | all fixups pass the checks of the second pass exactly when every jump operand of the source is a label placed ahead of it within 255 instructions |
| `Bpf.Assembler.Label` | libs/cloudflow-capture/cf_bpf.c:15-22 | the label is placed at the current position, or an error is set |
| `Bpf.Assembler.Stmt` | libs/cloudflow-capture/cf_bpf.c:24-36 | the source grows by this instruction, or an error is set exactly when the program is full |
| `Bpf.Assembler.Jump` | libs/cloudflow-capture/cf_bpf.c:38-75 | the source grows by this jump and its fixups are recorded, or an error is set exactly when a table is full |
| `Bpf.Assembler.Finish` | libs/cloudflow-capture/cf_bpf.c:77-108 | returns 0 exactly when no call failed and every label is resolvable, and then the instruction array holds the resolved program; otherwise -1 |
| `BpfFilters.CheckTwoPorts` | libs/cloudflow-capture/cf_bpf.c:110-116 | emits the two-port test at the current position |
| `BpfFilters.EmitIpv4Branch` | libs/cloudflow-capture/cf_bpf.c:118-175 | emits the IPv4 branch for UDP or TCP at the current position |
| `BpfFilters.EmitIpv6Branch` | libs/cloudflow-capture/cf_bpf.c:139-191 | emits the IPv6 branch for UDP or TCP at the current position |
| `BpfFilters.EmitEtherHead` | sources/cloudflow-source-dns/src/dns_bpf.c:46-55 | emits the EtherType dispatch shared by both filters and places the VLAN label |
| `BpfFilters.StepRuns` | libs/cloudflow-capture/cf_bpf.c:38-75 | one emitted instruction, wherever it was placed, does to the machine what its labelled form says, and a jump goes forward |
| `BpfFilters.Ipv4BranchRuns` | libs/cloudflow-capture/cf_bpf.c:118-137 | the IPv4 branch leads to accept exactly for the protocol, a first fragment and a wanted port behind the variable-length header, to mismatch otherwise, and rejects when a load leaves the frame |
| `BpfFilters.Ipv6BranchRuns` | libs/cloudflow-capture/cf_bpf.c:139-153 | the same for the IPv6 branch, with the ports behind the fixed header |
| `BpfFilters.EtherHeadRuns` | sources/cloudflow-source-dns/src/dns_bpf.c:46-55 | the dispatch leads to the branch of the EtherType, untagged or behind one 802.1Q tag, and drops everything else |
| `BpfFilters.FragmentMask` | libs/cloudflow-capture/cf_bpf.c:125-128 | the mask of the fragment test keeps exactly the 13 offset bits |
| `DnsFilter.SourceResolves` | sources/cloudflow-source-dns/src/dns_bpf.c:40-86 | every label of the DNS program is placed ahead of its jumps and within reach |
| `DnsFilter.ProgramDecidesDnsWanted` | sources/cloudflow-source-dns/src/dns_bpf.c:40-94 | on every frame the resolved program accepts exactly the untagged or single-802.1Q-tagged IPv4 or IPv6 frames with protocol UDP or TCP, not a later IPv4 fragment, and a port 53, and any load past the end rejects |
| `DnsFilter.Assemble` | sources/cloudflow-source-dns/src/dns_bpf.c:44-83 | the emitter calls produce exactly that source and those labels, without an error |
| `DnsFilter.BuildDnsFilter` | sources/cloudflow-source-dns/src/dns_bpf.c:40-94 | returns -1 exactly when the program does not fit; otherwise the output holds a program that decides the DNS predicate on every frame |
| `DhcpFilter.SourceResolves` | sources/cloudflow-source-dhcp/src/dhcp_bpf.c:32-68 | every label of the DHCP program is placed ahead of its jumps and within reach |
| `DhcpFilter.ProgramDecidesDhcpWanted` | sources/cloudflow-source-dhcp/src/dhcp_bpf.c:32-76 | on every frame the resolved program accepts exactly the UDP frames with port 67 or 68 over IPv4 (not a later fragment), or 546 or 547 over IPv6, untagged or behind one 802.1Q tag |
| `DhcpFilter.BuildDhcpFilter` | sources/cloudflow-source-dhcp/src/dhcp_bpf.c:32-76 | returns -1 exactly when the program does not fit; otherwise the output holds a program that decides the DHCP predicate on every frame |
| `Decap.RunTagLoop` | libs/cloudflow-packet/cf_decap.c:362-384 | the tag loop computes the recursive definition: at most two tags removed |
| `Decap.RunExtensionLoop` | libs/cloudflow-packet/cf_decap.c:280-345 | the extension-header loop computes the recursive definition, at most eight headers |
| `Decap.PayloadInsideFrame` | libs/cloudflow-packet/cf_decap.c:105-180 | every payload view lies inside the frame and behind its headers; a UDP view has the length its header claims, a TCP view ends at the end of the IP payload or is empty |
| `FrameFormat.WrittenPacketWalks` | libs/cloudflow-packet/cf_decap.c:355-399 | in a frame written with up to two tags and an IPv4 packet with options, or an IPv6 packet with up to seven extension headers, the walk finds the tags' ids, both addresses, the transport header and the end of the packet where the writer put them |
| `FrameFormat.WrittenUdpDecaps` | libs/cloudflow-packet/cf_decap.c:105-130 | a written UDP frame comes back with its ports, length, checksum flag and payload |
| `FrameFormat.WrittenTcpDecaps` | libs/cloudflow-packet/cf_decap.c:139-180 | a written TCP segment comes back with its ports, flags and all the payload of the packet behind its options |
| `FrameFormat.WalksChain` | libs/cloudflow-packet/cf_decap.c:249-349 | a written chain of extension headers is passed to the transport header, and a first fragment is noted |
| `Decap.WalkStaysInside` | libs/cloudflow-packet/cf_decap.c:355-399 | the transport header starts inside the frame, right behind the whole IPv4 header as its length field says (at least 20 bytes), or at least 40 bytes behind the start of an IPv6 header, and the IP payload ends inside the frame |
| `Decap.AddressesAreFull` | libs/cloudflow-packet/cf_decap.c:355-399 | both addresses of a decoded walk fill the 16-byte field |
| `FilterAgreement.DecodedFramePassesFilterIffPlain` | sources/cloudflow-source-dns/src/dns_bpf.c:40-94 | a frame that decapsulates to UDP or TCP with a port 53 is accepted by the kernel filter exactly when it has at most one tag, an 802.1Q one, and no IPv6 extension header |
| `FilterAgreement.FilteredFrameDecodesOrIsTruncated` | libs/cloudflow-packet/cf_decap.c:441-481 | a frame the kernel filter accepts either decapsulates with a port 53 or is cut short or malformed; it is never taken for another protocol or a later fragment |
| `DnsName.DecodeName` | libs/cloudflow-packet/cf_dns.c:114-211 | fills the buffer with the NUL-terminated dotted name of the labels decoded, at most 254 bytes, and returns how far the cursor advances; terminates on every input |
| `DnsName.DecodesExactlyTheEncodedName` | libs/cloudflow-packet/cf_dns.c:114-211 | decoding succeeds with these labels exactly when the message holds them at this offset with strictly backward pointers, within 255 counted octets and 128 jumps |
| `DnsName.TextLength` | libs/cloudflow-packet/cf_dns.c:150-178 | the dotted form is one byte shorter than the counted octets, so it never fills the buffer |
| `DnsName.UncompressedDecodesIff` | libs/cloudflow-packet/cf_dns.c:149-153 | an uncompressed name is accepted exactly when it takes at most 256 octets on the wire |
| `DnsName.OverlongNameAccepted` | libs/cloudflow-packet/cf_dns.c:149-153 | three labels of 63 bytes and one of 62 are such a name of 256 octets, one more than the standard allows, and are accepted |
| `DnsName.CompressionPreservesName` | libs/cloudflow-packet/cf_dns.c:114-211 | a name written with any suffix replaced by a backward pointer, itself possibly compressed, decodes to what its uncompressed form decodes to (section 4.1.4 of RFC 1035) |
| `DnsName.CursorSpansWrittenBytes` | libs/cloudflow-packet/cf_dns.c:180-205 | the consumed count is exactly the labels written here plus the pointer, or plus the final zero |
| `DnsName.AdvanceStaysInside` | libs/cloudflow-packet/cf_dns.c:180-211 | a decode advances the cursor only within the message |
| `DnsName.OkAdvances` | libs/cloudflow-packet/cf_dns.c:180-211 | a successful decode advances the cursor |
| `DnsName.LowerIffSameLetters` | libs/cloudflow-packet/cf_dns.c:160-168 | lower-casing leaves no byte from 65 to 90, changes nothing else, and identifies exactly the texts that differ in capital and small letters |
| `DnsName.LowerTextIsLower` | libs/cloudflow-packet/cf_dns.c:150-178 | the lower-case form of a name holds no capital, differs from the plain form only in case, and equals it when that holds no capital |
| `DnsName.TextSplitsBack` | libs/cloudflow-packet/cf_dns.c:150-178 | split at its dots, the dotted form gives back the labels in order, when none of them holds a dot |
| `DnsName.TextInjective` | libs/cloudflow-packet/cf_dns.c:149-178 | the dotted lower-case form determines the labels up to capital and small letters when no label is empty or holds a NUL or a dot |
| `DnsName.CaseInsensitive` | libs/cloudflow-packet/cf_dns.c:160-175 | names whose bytes are equal up to capital and small letters have the same lower-cased form |
| `DnsRdata.FineIffWellFormed` | libs/cloudflow-packet/cf_dns.c:217-405 | the record-data checks pass exactly when the data has the shape of its type: four or sixteen address bytes, a name within the decoder's limits, a long enough MX or SRV with its name, an SOA whose five numbers end inside the data, or character-strings that fill it |
| `DnsRdata.RdataMalformed` | libs/cloudflow-packet/cf_dns.c:359-405 | the checks as they run, decoding each name into a buffer, decide that shape for every type, offset and length |
| `DnsRdata.TxtMalformed` | libs/cloudflow-packet/cf_dns.c:310-353 | the walk over length-prefixed strings reports malformed exactly when the last string claims more than the data holds |
| `DnsRdata.OptionsIffDescribed` | libs/cloudflow-packet/cf_dns.c:654-688 | the option walk returns exactly what the data holds: whole options and fewer than four bytes over, or whole options and a last one that claims more than is left and gets what is left, and only then the overrun warning |
| `DnsRdata.OptionsWalkBack` | libs/cloudflow-packet/cf_dns.c:654-688 | encoded options walk back to themselves without a warning, whatever short remainder follows |
| `DnsRdata.WalkOptions` | libs/cloudflow-packet/cf_dns.c:654-688 | the option loop computes that walk |
| `DnsMessage.BuildEdns` | libs/cloudflow-packet/cf_dns.c:632-693 | size, extended code, version, DO bit and options of the OPT record, with its warning |
| `DnsMessage.BuildRr` | libs/cloudflow-packet/cf_dns.c:585-607 | the record with its raw data, malformed exactly by name, length or shape |
| `DnsMessage.HeaderReadsBack` | libs/cloudflow-packet/cf_dns.c:409-444 | a header written bit by bit as section 4.1.1 of RFC 1035 says parses back field by field |
| `DnsMessage.HeaderIsWritten` | libs/cloudflow-packet/cf_dns.c:409-444 | every twelve bytes are a header written so, so nothing is excluded |
| `DnsMessage.EdnsReadsBack` | libs/cloudflow-packet/cf_dns.c:632-693 | a written OPT record gives back its size, extended code, version, DO bit and options |
| `DnsMessage.CleanMessageIsWritten` | libs/cloudflow-packet/cf_dns.c:728-823 | the converse of the round trip: when nothing is warned about and each section yields what the header announces, the message is written as its questions and records say |
| `DnsMessage.ShortSectionWarns` | libs/cloudflow-packet/cf_dns.c:697-724 | a record section ends early only with a warning, or silently where a name cannot be passed |
| `DnsMessage.ShortQuestionsWarn` | libs/cloudflow-packet/cf_dns.c:753-774 | the question section ends early only with a truncation warning |
| `DnsMessage.NameMayOutrunData` | libs/cloudflow-packet/cf_dns.c:217-226 | a whole response whose CNAME record has one byte of data and a name that is read on beyond it: the record parses with that byte, not malformed, and nothing is warned about |
| `DnsMessage.RunQuestions` | libs/cloudflow-packet/cf_dns.c:753-774 | the question loop computes the section definition |
| `DnsMessage.RunSection` | libs/cloudflow-packet/cf_dns.c:697-724 | the record loop computes the section definition, in which a record is malformed exactly when its name is, its length overruns, or its data lacks the shape of its type |
| `DnsMessage.RunAdditional` | libs/cloudflow-packet/cf_dns.c:781-818 | the additional loop computes its definition: the first OPT record is read as EDNS with its options and their overrun warning, further ones are dropped with a warning, every other record is kept |
| `DnsMessage.RunParse` | libs/cloudflow-packet/cf_dns.c:728-823 | the whole parse computes the message definition, with every header field and every warning in order, and the extended code folded into the header |
| `DnsMessage.WalkStays` | libs/cloudflow-packet/cf_dns.c:753-774 | the cursor never moves back or past the end, each question costs at least five bytes, and there are no more questions than the count says |
| `DnsMessage.SectionStays` | libs/cloudflow-packet/cf_dns.c:697-724 | the same for a record section, with at least eleven bytes a record |
| `DnsMessage.WrittenMessageParsesBack` | libs/cloudflow-packet/cf_dns.c:728-823 | a message whose header bytes are written from id, flags, codes and counts, and whose counts match the questions and records written behind them, with names compressed in any legal way, parses back: the header field by field, questions with the bytes of their names, records as written, malformed exactly when their data lacks the shape of their type; the first OPT record as EDNS, its extended code put in front of the header's; and no warnings but for an overlong option in it and for each further OPT record |
| `DnsStage.AddrSet.AddIp` | sources/cloudflow-source-dns/src/leg_classify.c:64-82 | the set gains the address, kept in canonical width, unless its IP version is unknown |
| `DnsStage.AddrSet.Contains` | sources/cloudflow-source-dns/src/leg_classify.c:102-136 | true exactly when an address of the same family with the same significant bytes was added |
| `DnsStage.LegTable` | sources/cloudflow-source-dns/src/leg_classify.c:238-300 | the decision table by port 53 and membership: the address behind the one port 53 is the server, the local set is asked before the backend set, and without exactly one port 53 nothing is decided |
| `DnsStage.WrittenUdpIsUsable` | sources/cloudflow-source-dns/src/dns_stage.c:299-324 | a written UDP frame is usable, with the writer's addresses, ports and payload |
| `DnsStage.WrittenTcpIsUsable` | sources/cloudflow-source-dns/src/dns_stage.c:326-376 | a written TCP segment with a whole length-prefixed message is usable, with the writer's addresses and ports and exactly that message |
| `DnsStage.ResponseBitDecides` | sources/cloudflow-source-dns/src/dns_stage.c:912-967 | a readable frame makes a response's call exactly when the top bit of byte 2 of its DNS payload is set, a query's otherwise, with its own time and context, and a tick after every sixty-fourth |
| `DnsStage.RunClassifyLeg` | sources/cloudflow-source-dns/src/leg_classify.c:238-300 | the leg and which end is the server, as the decision table says |
| `DnsStage.QueryAndResponseShareKey` | sources/cloudflow-source-dns/src/dns_stage.c:388-446 | for a flow with exactly one port 53, a query and the endpoint-swapped response with the same id and question get the same role, the mirrored orientation and the same key, byte for byte |
| `DnsStage.KeysEqualIff` | sources/cloudflow-source-dns/src/dns_stage.c:388-446 | two parsed messages get equal keys exactly when their frames belong to one flow (the same direction, or opposite directions with exactly one port 53) and they agree on id, first type, first class and the name kept |
| `DnsStage.WireKeysEqualIff` | sources/cloudflow-source-dns/src/dns_stage.c:388-446 | on the wire: equal keys exactly for one flow, equal ids, types and classes, and dotted names that agree in lower case up to the first NUL |
| `DnsStage.OrdinaryKeysEqualIff` | sources/cloudflow-source-dns/src/dns_stage.c:388-446 | for names without a NUL or a dot in a label, equal keys exactly for one flow, equal ids, types and classes, and the same labels up to ASCII case: different names are kept apart |
| `DnsStage.DifferentNamesOneKey` | sources/cloudflow-source-dns/src/dns_stage.c:431-445 | two pairs of different names with one key in every flow: a label that differs behind a NUL, and a label holding a dot against two labels |
| `DnsStage.ReversedKeysEqualIff` | sources/cloudflow-source-dns/src/dns_stage.c:396-415 | a query and its reversed response get equal keys exactly when one port is 53 and the other is not, or both ends are the same |
| `DnsStage.OffPortHalvesDoNotMeet` | sources/cloudflow-source-dns/src/dns_stage.c:406-415 | between any two ports other than 53, the two halves of a transaction get different keys, unless both ends are the same address and port |
| `DnsStage.FramesMeet` | sources/cloudflow-source-dns/src/dns_stage.c:388-446 | frame to frame: a query and the reversed response, whose names may differ in case and compression, call the table with the same key |
| `DnsStage.CaseVariantsAreSameTransaction` | sources/cloudflow-source-dns/src/dns_stage.c:388-446 | two messages whose first questions differ only in ASCII case, with the same id, type and class, count as the same transaction |
| `DnsStage.ResponseMeetsItsQuery` | sources/cloudflow-source-dns/src/dns_stage.c:955-963 | while its query is pending, such a response is emitted OBSERVED with that query's context, and rtt_valid exactly when 0 <= rtt <= timeout |
| `DnsStage.ImmediateResponseObservedIffTaken` | sources/cloudflow-source-dns/src/correlation.c:311-407 | a response right after its query is matched to it exactly when the table took the query in, that is, unless the table was full of other queries under drop_newest |
| `DnsStage.StageHandsOver` | sources/cloudflow-source-dns/src/dns_stage.c:955-967 | over any sequence of frames and idle turns, the table is handed exactly the contexts of the queries and of the responses that could be read, in order |
| `DnsStage.RunStage` | sources/cloudflow-source-dns/src/dns_stage.c:1008-1030 | the stage's thread and teardown on any sequence of frames and idle turns: the emissions are those of the ordered list on the induced calls, and every context of a readable query or response comes back exactly once |
| `DnsStage.Stage.ProcessPacket` | sources/cloudflow-source-dns/src/dns_stage.c:864-971 | exactly the usable frames with a DNS header reach the table, each as one query or response call and, at every sixty-fourth, a tick; every other frame leaves the table alone and is counted once, by cause |
| `SpscQueue.RunKeepsInv` | libs/cloudflow-core/cf_queue.c:71-149 | over every interleaving of the atomic steps the ring invariant holds |
| `SpscQueue.TakenIsPrefixOfPushed` | libs/cloudflow-core/cf_queue.c:71-149 | in every interleaving what left the ring is a prefix of what was pushed, each element whole or deliberately dropped, and at most capacity - 1 are queued |
| `SpscQueue.NeverSameSlot` | libs/cloudflow-core/cf_queue.c:71-149 | while the producer writes a slot, the consumer is not reading or discarding that slot |
| `SpscQueue.AnswersAreExactAtTheLoad` | libs/cloudflow-core/cf_queue.c:82-113 | full is reported exactly when capacity - 1 elements were queued at the load of the tail, empty exactly when none was at the load of the head |
| `SpscQueue.LengthIsExactWhenQuiescent` | libs/cloudflow-core/cf_queue.c:151-166 | the length read while no thread moves is the number of queued elements |
| `QueuePolicy.Ring.Push` | libs/cloudflow-core/cf_queue.c:71-98 | one thread at a time: 0 and appended, or 1 and unchanged exactly when capacity - 1 elements are queued |
| `QueuePolicy.Ring.Pop` | libs/cloudflow-core/cf_queue.c:100-125 | the oldest element, or 1 exactly when the ring is empty |
| `QueuePolicy.Ring.Drop` | libs/cloudflow-core/cf_queue.c:127-149 | the oldest element is discarded, or 1 exactly when the ring is empty |
| `QueuePolicy.Ring.Length` | libs/cloudflow-core/cf_queue.c:151-166 | the number of queued elements |
| `QueuePolicy.PushPolicy` | libs/cloudflow-capture/cf_queue_policy.c:31-101 | for each policy the exact new contents, result and drop count, each lost element counted once; a blocked push succeeds exactly when, among the first 500 turns, the consumer takes something before any stop, and otherwise leaves the contents as they were |
| `HttpDeliver.SendShape` | libs/cloudflow-sink-core/cf_sink_httpdeliver.c:94-179 | POSTs stay inside the range and are not empty, each item gets one mark, and an unmarked item means a stop |
| `HttpDeliver.DeliveredExactlyOnce` | libs/cloudflow-sink-core/cf_sink_httpdeliver.c:130-138 | for any server, an item is marked delivered exactly when one accepted POST carried it, and never did two |
| `HttpDeliver.PoisonIffRejectedAlone` | libs/cloudflow-sink-core/cf_sink_httpdeliver.c:149-171 | an item is poison with a status exactly when it was POSTed alone and got that non-retryable status |
| `HttpDeliver.DeliveredIffTwoHundreds` | libs/cloudflow-sink-core/cf_sink_httpdeliver.c:130-138 | an item is delivered exactly when a POST answered from 200 to 299 carried it |
| `HttpDeliver.PoisonByStatus` | libs/cloudflow-sink-core/cf_sink_httpdeliver.c:140-171 | an item is poison with a status exactly when it was POSTed alone and the status is above 0, below 500, not 429 and not from 200 to 299 |
| `HttpDeliver.OutageLeavesAll` | libs/cloudflow-sink-core/cf_sink_httpdeliver.c:140-147 | as long as every answer is a transport error, 429 or 500 and above, the whole range is POSTed once for each, nothing is marked, and the sleeps are 1, 2, 4, 8, 16 and then 30 seconds |
| `HttpDeliver.TallyIsExact` | libs/cloudflow-sink-core/cf_sink_httpdeliver.c:115-152 | the counters: one delivery for each delivered mark, one retry for each sleep, one error for each POST not answered from 200 to 299 |
| `HttpDeliver.DepthIsLogarithmic` | libs/cloudflow-sink-core/cf_sink_httpdeliver.c:176-178 | in a batch of at most 2^d items, no item is carried by more than d + 1 POSTs with a non-retryable answer |
| `HttpDeliver.FewFinalAnswers` | libs/cloudflow-sink-core/cf_sink_httpdeliver.c:176-178 | a batch of n costs at most 2n - 1 POSTs with a non-retryable answer |
| `HttpDeliver.WaitsAreBounded` | libs/cloudflow-sink-core/cf_sink_httpdeliver.c:114-147 | every backoff sleep is between the starting backoff and 30 seconds |
| `HttpDeliver.BisectionIsExact` | libs/cloudflow-sink-core/cf_sink_httpdeliver.c:94-205 | against a server that rejects exactly the bodies with a bad record, delivered items hold no bad record and poison ones hold one, whatever number of newline-separated records an item has; when no stop cut it short and the script is not used up, the converses hold too |
| `HttpDeliver.EnoughAnswersFinish` | libs/cloudflow-sink-core/cf_sink_httpdeliver.c:94-179 | delivery ends: without a stop and with 2n-1 final answers among the events, whatever retryable answers and allocation failures lie between them, no item is left unmarked |
| `HttpDeliver.HonestDeliveryIsExact` | libs/cloudflow-sink-core/cf_sink_httpdeliver.c:94-179 | so with such a server, no stop and 2n-1 final answers to come, the delivered items are exactly those without a bad record and the poison ones exactly those with one; no condition on the items |
| `HttpDeliver.BodyHoldsRecords` | libs/cloudflow-sink-core/cf_sink_httpdeliver.c:42-63 | split at newlines, a body gives the records of its items in order, for items with any number of newlines |
| `HttpDeliver.BodySplitsBack` | libs/cloudflow-sink-core/cf_sink_httpdeliver.c:42-71 | splitting the body at newlines gives back exactly the items, when none holds a newline |
| `HttpDeliver.BuildBody` | libs/cloudflow-sink-core/cf_sink_httpdeliver.c:42-71 | the buffer holds the lines joined by newlines and is never overrun |
| `HttpDeliver.Delivery.RetryLoop` | libs/cloudflow-sink-core/cf_sink_httpdeliver.c:107-150 | the loop ends with a stop before any further POST or with the first final answer, and logs exactly the POSTs and sleeps of the definition |
| `HttpDeliver.Delivery.SendRange` | libs/cloudflow-sink-core/cf_sink_httpdeliver.c:94-179 | the flag arrays, the POST log with its bodies, the sleeps and the counters are those of the definition, and flags outside the range are untouched |
| `HttpDeliver.Delivery.DeliverBatched` | libs/cloudflow-sink-core/cf_sink_httpdeliver.c:181-205 | the same for a whole batch, whatever the flags held before |
| `SinkConsumer.Consumer.ProcessEntry` | libs/cloudflow-sink-core/cf_sink_consumer.c:199-261 | each outcome of an entry, exactly: unacceptable or undecodable entries are dead-lettered and then acknowledged, output-less ones acknowledged, others batched unless allocation fails; the at-least-once contract is kept |
| `SinkConsumer.Consumer.FlushStdout` | libs/cloudflow-sink-core/cf_sink_consumer.c:265-276 | every batched entry is printed before it is acknowledged; the contract is kept |
| `SinkConsumer.DeliveredAreSettled` | libs/cloudflow-sink-core/cf_sink_consumer.c:306-311 | an entry marked delivered was carried by a POST that got a 2xx |
| `SinkConsumer.SettleKeeps` | libs/cloudflow-sink-core/cf_sink_consumer.c:308-320 | acknowledging delivered entries, dead-lettering poisoned ones and leaving the rest keeps the contract |
| `SinkConsumer.Consumer.FlushHec` | libs/cloudflow-sink-core/cf_sink_consumer.c:278-326 | the exact world after a flush: the POSTs of the delivery, then each entry settled by its mark in order; nothing at all when an allocation fails or a stop was seen before, since the delivery checks the same flag; the contract is kept |
| `SinkConsumer.Consumer.FlushBatch` | libs/cloudflow-sink-core/cf_sink_consumer.c:328-338 | the batch is emptied and the contract kept; with HTTP, after a stop was seen, the log and the unanswered commands stay as they were |
| `SinkConsumer.Consumer.MaybeFlush` | libs/cloudflow-sink-core/cf_sink_consumer.c:340-356 | flushes exactly when the batch is full or, when it is neither full nor empty, the next tick says that the interval has elapsed; otherwise leaves it as it is |
| `SinkConsumer.Consumer.EnsureGroups` | libs/cloudflow-sink-core/cf_sink_consumer.c:360-376 | fails exactly when the first reply that is not fine is an error on a live connection; a missing reply does not fail but ends the connection; nothing is logged |
| `SinkConsumer.Consumer.ReadNew` | libs/cloudflow-sink-core/cf_sink_consumer.c:434-489 | what the server hands out is pending whether or not the reply arrives, and is processed when it does; returns how many were handed out; the contract is kept |
| `SinkConsumer.Consumer.ReclaimAll` | libs/cloudflow-sink-core/cf_sink_consumer.c:399-430 | whatever a reclaim page hands out is logged as read, heard or not, the first page being the answer to the first command; heard entries are processed; the contract is kept and nothing read is forgotten |
| `SinkConsumer.Consumer.Reconnect` | libs/cloudflow-sink-core/cf_sink_consumer.c:556-591 | false exactly when a stop was seen, and then without a Redis context; the log is untouched and no command is issued without a context |
| `SinkConsumer.Consumer.RunOnce` | libs/cloudflow-sink-core/cf_sink_consumer.c:650-664 | a whole single run, with any failures, keeps the contract and ends with an empty batch; when nothing failed, it has asked each stream for a reclaim page and then read until a read handed out nothing, everything handed out is read, and every entry ever read has been settled and acknowledged |
| `SinkConsumer.Consumer.FinalFlush` | libs/cloudflow-sink-core/cf_sink_consumer.c:684-685 | after a stop: with HTTP nothing is sent and every batched entry not yet acknowledged stays pending, with stdout every one is printed; everything read is acknowledged exactly when the batch is; without a context, stdout mode issues one command for each batched entry and HTTP none |
| `SinkConsumer.StoppedSettlesNothing` | libs/cloudflow-sink-core/cf_sink_httpdeliver.c:104-115 | a delivery that starts after a stop makes no POST, marks nothing, and settles nothing |
| `SinkConsumer.ShutdownStrandsBatch` | libs/cloudflow-sink-core/cf_sink_consumer.c:673-685 | a run in which a stop comes right after an entry was read and batched: it is never sent, whatever the server would have answered, and stays pending |
| `SinkConsumer.ShutdownWithoutContext` | libs/cloudflow-sink-core/cf_sink_consumer.c:556-591 | a run in stdout mode in which a stop comes while the connection is lost: the entry is printed, its acknowledgement is issued without a context, and it stays pending |
| `SinkConsumer.Consumer.Turn` | libs/cloudflow-sink-core/cf_sink_consumer.c:669-683 | one turn of the loop: when nothing fails, one reclaim page of every stream and then one read, unless one of the two checks sees the stop; on the inputs, the answer behind idle reclaims is the read's and its entries are read |
| `SinkConsumer.Consumer.RunForever` | libs/cloudflow-sink-core/cf_sink_consumer.c:666-688 | a whole run until a stop, with lost connections and failures anywhere, keeps the contract and ends with an empty batch; with HTTP the shutdown flush changes nothing but the batch; if nothing failed up to the stop, every entry ever read is acknowledged exactly when those in the batch at the stop are; if nothing failed at all, everything read is settled and acknowledged; and a run that starts with a context issues commands without one exactly in stdout mode, when the stop was seen while reconnecting, one for each entry of the batch; when nothing failed up to the stop, the run has asked every stream for a page once for each odd check and read once for each even check before it, and everything handed out is read; no full batch waits at the stop; and on the inputs, with fine group answers, idle reclaims and two checks to spare, the entries the next answer holds are read |
| `SinkConsumer.SettleCompletes` | libs/cloudflow-sink-core/cf_sink_consumer.c:308-320 | settling a batch whose commands all succeed acknowledges every entry of it |
| `SinkConsumer.NothingIsLost` | libs/cloudflow-sink-core/cf_sink_consumer.c:188-197 | under the contract, at every moment of a run an entry the group was handed either was settled by a 2xx, a print, a confirmed dead-letter or the absence of output, or is still pending |
| `RedisProducer.SameConnectionKeepsOrder` | libs/cloudflow-redis/cf_redis_producer.c:363-367 | on one connection events are sent in the order they were popped, and none twice; so a retried tail keeps its order and a second send is on a new connection |
| `RedisProducer.DecidedNeverResent` | libs/cloudflow-redis/cf_redis_producer.c:332-354 | an event acknowledged, refused or counted as lost is never sent again |
| `RedisProducer.PopAndSend` | libs/cloudflow-redis/cf_redis_producer.c:463-467 | popping and sending one event keeps the history well formed: one fate per decided event, at most two sends each, and popped = stored + refused + lost + undecided |
| `RedisProducer.PopAndLose` | libs/cloudflow-redis/cf_redis_producer.c:468-477 | dropping an event that cannot be appended keeps it so, with one more lost |
| `RedisProducer.Finish` | libs/cloudflow-redis/cf_redis_producer.c:283-293 | a reply, or a loss, decides the oldest undecided event and keeps it so |
| `RedisProducer.Resend` | libs/cloudflow-redis/cf_redis_producer.c:363-367 | sending an undecided event a second time on a new connection keeps it so |
| `RedisProducer.PopUnseen` | libs/cloudflow-redis/cf_redis_producer.c:426-435 | an event popped without being counted stays undecided |
| `RedisProducer.Producer.Connect` | libs/cloudflow-redis/cf_redis_producer.c:167-210 | a connection exactly when the first attempt that succeeds comes before the checks for the deadline or the stop run out, one check an attempt and one a cycle; the attempts and checks that remain; otherwise none, and the limit is used up |
| `RedisProducer.Producer.FlushPipeline` | libs/cloudflow-redis/cf_redis_producer.c:264-299 | the replies up to the first missing one decide the leading events, counted by kind; an I/O error means fewer than asked for; the missing reply itself is used up, so a later connection reads what follows |
| `RedisProducer.Producer.RetryTail` | libs/cloudflow-redis/cf_redis_producer.c:356-369 | the tail is sent again in order up to the first append that fails |
| `RedisProducer.Producer.Retry` | libs/cloudflow-redis/cf_redis_producer.c:341-388 | after a lost connection: everything lost exactly when no connection comes back in time; otherwise resent, then answered by the replies on the new connection, and the rest lost; the connection survives exactly when all resent events were answered |
| `RedisProducer.Producer.DoFlush` | libs/cloudflow-redis/cf_redis_producer.c:311-388 | the exact history of a flush: the answered prefix, then at most one retry of the tail, which reads the replies after the missing one; when the tail is lost, kept or split; nothing is left in flight |
| `RedisProducer.OutcomeByReply` | libs/cloudflow-redis/cf_redis_producer.c:283-293 | an error reply refuses its event, any other reply acknowledges it |
| `RedisProducer.Producer.FlushIfDue` | libs/cloudflow-redis/cf_redis_producer.c:483-494 | a flush is due exactly when the batch is full, or is not empty and either a stop was seen or the interval has elapsed |
| `RedisProducer.RetrySucceeds` | libs/cloudflow-redis/cf_redis_producer.c:356-369 | when missing replies are more than a batch apart, the retry of a batch that met one is answered in full, unless the replies run out |
| `RedisProducer.RetriedTailIsStored` | libs/cloudflow-redis/cf_redis_producer.c:332-369 | a run in which the connection fails before the first reply, the event is sent again on a new connection, and is stored: nothing is lost |
| `RedisProducer.FlushFares` | libs/cloudflow-redis/cf_redis_producer.c:311-388 | with enough replies and attempts, a flush loses nothing when one check is left for its reconnect, and otherwise no more than its batch |
| `RedisProducer.InterruptedRetryLosesBatch` | libs/cloudflow-redis/cf_redis_producer.c:341-354 | a run in which a stop during the reconnect of a retry loses the whole batch, so the bound of one batch is met |
| `RedisProducer.LostConnectionCostsNothing` | libs/cloudflow-redis/cf_redis_producer.c:392-502 | a whole run on inputs with a missing reply in which nothing is lost |
| `RedisProducer.Producer.TakeOne` | libs/cloudflow-redis/cf_redis_producer.c:459-477 | the oldest queued event is sent and put in flight, or counted as lost when it cannot be appended |
| `RedisProducer.LateEventIsUncounted` | libs/cloudflow-redis/cf_redis_producer.c:426-443 | a run of the late shutdown in which an event that arrives while the queue is emptied is popped and not counted |
| `RedisProducer.Producer.DropEverything` | libs/cloudflow-redis/cf_redis_producer.c:426-443 | at the shutdown deadline the queue and the batch are emptied and counted as lost, except what the upstream pushed while the queue was being emptied |
| `RedisProducer.Producer.Turn` | libs/cloudflow-redis/cf_redis_producer.c:414-495 | one turn keeps the books and the history, or ends the thread with queue and batch empty |
| `RedisProducer.Producer.ThreadMain` | libs/cloudflow-redis/cf_redis_producer.c:392-502 | at every loop head popped = xadd_total + xadd_errors_total + events_lost_total + in flight; at exit queue and batch are empty and the books balance exactly up to the events pushed during a late shutdown, none with a quiescent upstream; and connections may fail without losing an event: on the inputs alone (a stream for every event, no failed append, two replies for each event with missing ones more than a batch apart, a successful attempt for each, a far deadline) at most one batch is lost, and none when the stop is there from the start or comes after the traffic; and for any inputs, when replies have not run out and neither the stop nor the deadline cut a retry short |
| `Sha256.Context.Transform` | libs/cloudflow-core/sha256.c:35-90 | the state becomes the compression of the block by section 6.2.2 of FIPS 180-4 |
| `Sha256Constants.CubeRoots0To7` | libs/cloudflow-core/sha256.c:11-28 | the first eight round constants are the first 32 bits of the fractional parts of the cube roots of the first eight primes; CubeRoots8To15 to CubeRoots56To63 say the same of the others |
| `Sha256Constants.InitialHashIsSquareRoots` | libs/cloudflow-core/sha256.c:94-101 | the initial hash value is the same for the square roots of the first eight primes |
| `Sha256Constants.FunctionsByExample` | libs/cloudflow-core/sha256.c:30-72 | the rotations and the two bit choices by literal values that fix them |
| `Sha256.ScheduleAt` | libs/cloudflow-core/sha256.c:48-53 | the code's sum for a schedule word is the standard's, in another order |
| `Sha256.OneRound` | libs/cloudflow-core/sha256.c:64-80 | one turn of the round loop is one round of the standard |
| `Sha256.Context.constructor` | libs/cloudflow-core/sha256.c:92-105 | a fresh context has hashed nothing |
| `Sha256.Context.Update` | libs/cloudflow-core/sha256.c:107-127 | the context has hashed the old message followed by the data, with fewer than 64 bytes buffered |
| `Sha256.Context.Final` | libs/cloudflow-core/sha256.c:129-159 | the digest of everything hashed, by the one-shot definition |
| `Sha256.HashChunks` | libs/cloudflow-core/sha256.c:107-159 | however a message is cut into updates, the digest is that of the whole message |
| `Sha256.PaddedMessage` | libs/cloudflow-core/sha256.c:129-151 | what the two endings of sha256_final compress is the message with the padding of section 5.1.1 of FIPS 180-4 |
| `Sha256.PadsUp` | libs/cloudflow-core/sha256.c:135-149 | the number of zero bytes is the least that fills the last block |
| `Sha256.PaddingIsInjective` | libs/cloudflow-core/sha256.c:129-151 | messages under 2^61 bytes with the same padded form are equal |
| `Sha256.BigEndianReadsBack` | libs/cloudflow-core/sha256.c:148-149 | the length bytes read back as the length |
| `EventId.PreimageIsInjective` | libs/cloudflow-core/cf_event_id.c:7-50 | different (host, interface, time, frame) are hashed from different byte strings, for strings under 2^32 bytes and frames of any length |
| `EventId.HugeNamesCollide` | libs/cloudflow-core/cf_event_id.c:7-23 | from 2^32 bytes on it fails: two different pairs of host and interface are hashed from the same bytes, for every time and frame |
| `EventId.PreimageInOrder` | libs/cloudflow-core/cf_event_id.c:25-50 | the bytes hashed are host, interface, eight big-endian bytes of the time and frame, in this order, each behind its four-byte length |
| `EventId.FieldSplits` | libs/cloudflow-core/cf_event_id.c:7-23 | a length-prefixed field ends where it says, whatever follows |
| `EventId.HashField` | libs/cloudflow-core/cf_event_id.c:10-23 | the context has additionally hashed the four length bytes and the field |
| `EventId.EventId` | libs/cloudflow-core/cf_event_id.c:25-58 | the 32 hexadecimal digits of the first 16 digest bytes of that byte string, and a NUL; null strings count as empty |
| `EventId.HexReadsBack` | libs/cloudflow-core/cf_event_id.c:53-56 | the digits determine the bytes |
| `Crc16Table.TableSteps` | libs/cloudflow-redis/cf_redis_slot.c:6-39 | each table entry determines the two entries at twice its index by a shift, and by the polynomial when a bit is shifted out |
| `RedisSlot.EntryIsRemainder` | libs/cloudflow-redis/cf_redis_slot.c:6-39 | each table entry is the remainder of its index times x^16 |
| `RedisSlot.NextCrcIsRemainder` | libs/cloudflow-redis/cf_redis_slot.c:46-47 | one table step turns the remainder of a message into that of the message with one byte more |
| `RedisSlot.CrcIsRemainder` | libs/cloudflow-redis/cf_redis_slot.c:41-50 | the checksum of a byte string, and no other number, is the remainder of its polynomial times x^16 by x^16 + x^12 + x^5 + 1 |
| `RedisSlot.RemainderIsUnique` | libs/cloudflow-redis/cf_redis_slot.c:41-50 | division over GF(2) has one remainder below 2^16 |
| `RedisSlot.Crc16` | libs/cloudflow-redis/cf_redis_slot.c:41-50 | the loop computes that remainder |
| `RedisSlot.KeySlot` | libs/cloudflow-redis/cf_redis_slot.c:52-76 | the slot of the tag, or of the whole key, found by the two scans |
| `RedisSlot.TagDecidesSlot` | libs/cloudflow-redis/cf_redis_slot.c:56-75 | a key with a first non-empty tag goes to the slot of the tag |
| `RedisSlot.SameTagSameSlot` | libs/cloudflow-redis/cf_redis_slot.c:52-76 | any two keys with the same tag share a slot below 16384 |
| `RedisSlot.UntaggedIsHashedWhole` | libs/cloudflow-redis/cf_redis_slot.c:61-72 | a key without such a tag is hashed whole |
| `Dhcpv4Options.EncodedOptionsWalkBack` | libs/cloudflow-packet/cf_dhcpv4.c:139-203 | any options with codes 1 to 254, written with any pads and any ending, walk back to the same options in order, numbered from the start, none malformed and without a warning (section 2 of RFC 2132) |
| `Dhcpv4Options.CleanWalkIsAnEncoding` | libs/cloudflow-packet/cf_dhcpv4.c:139-203 | conversely, a field that walks without a warning is the encoding of exactly its items |
| `Dhcpv4Options.MalformedIsLast` | libs/cloudflow-packet/cf_dhcpv4.c:157-189 | ordinals count up, an item is malformed exactly when the walk ends with a warning, about that item, and it is the last one of its field |
| `Dhcpv4Options.Parser.FindOrAdd` | libs/cloudflow-packet/cf_dhcpv4_util.c:209-234 | the entry of the code, a new empty one at the end when there was none |
| `Dhcpv4Options.Parser.Append` | libs/cloudflow-packet/cf_dhcpv4_util.c:236-254 | the item is appended, and every code's entry still holds the values of that code joined in order |
| `Dhcpv4Options.Parser.Get` | libs/cloudflow-packet/cf_dhcpv4_util.c:256-269 | all values of the code joined in order, empty when it never appeared |
| `Dhcpv4Options.Parser.Has` | libs/cloudflow-packet/cf_dhcpv4_util.c:271-280 | true exactly when the code appeared, even with no bytes |
| `Dhcpv4Options.Parser.WalkField` | libs/cloudflow-packet/cf_dhcpv4.c:139-203 | the items, warnings and overload value of the field are those of the definition |
| `Dhcpv4Options.Parser.MarkFragments` | libs/cloudflow-packet/cf_dhcpv4.c:488-499 | an item is marked exactly when another item has its code |
| `Dhcpv4Options.Parser.Parse` | libs/cloudflow-packet/cf_dhcpv4.c:439-499 | the items of options, then file and sname as option 52 says, marked, with the warnings of the walks; refused exactly below the fixed length |
| `Dhcpv4Options.OverloadIsLast` | libs/cloudflow-packet/cf_dhcpv4.c:192-193 | the overload value is the first byte of the last option 52 that has one, and 0 without one |
| `Dhcpv4Options.JoinedOverFields` | libs/cloudflow-packet/cf_dhcpv4.c:466-483 | what the map holds for a code is its values of the options field, then of file, then of sname (sections 5 and 7 of RFC 3396) |
| `Dhcpv4Options.TimesCounts` | libs/cloudflow-packet/cf_dhcpv4.c:488-499 | a count above one means exactly that another item has the code |
| `JsonLog.JsonEscape` | libs/cloudflow-core/cf_log.c:52-116 | the buffer holds the escaped form of the text up to the first character that does not fit, and a NUL, within its capacity |
| `JsonLog.CutIsLongest` | libs/cloudflow-core/cf_log.c:97-110 | what is kept fits, and one character more would not |
| `JsonLog.ShortIsUncut` | libs/cloudflow-core/cf_log.c:52-116 | a text that fits is kept whole |
| `LogUtf8.EscapedIsUtf8Iff` | libs/cloudflow-core/cf_log.c:62-110 | escaped text is valid UTF-8 exactly when the text is |
| `LogUtf8.EscapedCutIsUtf8Iff` | libs/cloudflow-core/cf_log.c:97-110 | what a buffer keeps of a valid text is valid UTF-8 exactly when the first byte left out does not continue a character |
| `LogUtf8.ServiceNameIsUtf8Iff` | libs/cloudflow-core/cf_log.c:143-149 | the stored service name is valid UTF-8 exactly when its cut at 127 bytes splits no character |
| `LogUtf8.LineIsUtf8Iff` | libs/cloudflow-core/cf_log.c:118-141 | the line of any members is valid UTF-8 exactly when every name and value in it is |
| `LogUtf8.LogIsUtf8Iff` | libs/cloudflow-core/cf_log.c:151-200 | logging valid texts gives a valid line exactly when neither the message nor a key or value that made it into the line was cut inside a character |
| `LogUtf8.LineIsSplit` | libs/cloudflow-core/cf_log.c:151-200 | a call with valid texts only whose line is not valid UTF-8 |
| `LogUtf8.LongMessageIsSplit` | libs/cloudflow-core/cf_log.c:97-110 | a valid message of 1024 bytes that is cut inside its last character |
| `JsonLog.StringScansBack` | libs/cloudflow-core/cf_log.c:67-95 | reading an escaped string back gives the string (section 7 of RFC 8259) |
| `JsonLog.AppendField` | libs/cloudflow-core/cf_log.c:124-141 | the whole field is appended, or nothing changes, exactly when it does not fit |
| `JsonLog.AppendPairs` | libs/cloudflow-core/cf_log.c:177-191 | the line gains the pairs in order up to the first that does not fit |
| `JsonLog.LineParsesBack` | libs/cloudflow-core/cf_log.c:151-200 | the line of any list of members is one JSON object with a newline, and reads back as that list |
| `JsonLog.Log` | libs/cloudflow-core/cf_log.c:151-200 | for every message, key and value the line is under 4096 bytes, is one well-formed object, and reads back as ts, level, service, the cut message and the cut pairs that fit |

## Left out

- Correlation.Correlator.OnQuery: `key_hash` is any function that agrees with key equality, and the bucket index is a remainder by the number of buckets; the constructor fixes the FNV-style hash.
- Correlation.Correlator.New: allocation failure of the pool or the buckets is not modelled.
- Re-entrant emit callbacks: the callback is assumed not to call the table, as in `dns_stage_emit`; emissions are appended to a trace.
- Bpf.Assembler.Finish: the size of the fixup and label tables is modelled, instruction codes are limited to the ones the two filters use.
- BpfFilters.EmitIpv4Branch: the UDP and TCP emitters of the source differ only in the protocol number, and are one method with a parameter here; the same holds for IPv6.
- Decap.WalkStaysInside: link-layer addresses, TTL, traffic class, and TCP sequence numbers are copied by the source and not modelled.
- DnsMessage.RunParse: the text rendering of record data is not modelled; record data is kept as bytes.
- DnsStage.Stage.ProcessPacket: building the protobuf observation, its allocation failures and the raw-payload copy are not modelled.
- DnsStage.AddrSet.AddIp: the doubling of the array's capacity is modelled as appending to a sequence.
- SpscQueue.RunKeepsInv: steps are sequentially consistent; the C11 memory-order annotations are not modelled.
- QueuePolicy.PushPolicy: drop_oldest is modelled with the consumer at rest; under concurrency it has two writers of the tail, and both sources configure drop_newest instead.
- HttpDeliver.BisectionIsExact: the response prefix kept for the error text is not modelled.
- HttpDeliver.WaitsAreBounded: sleeps are real numbers of seconds, without rounding.
- SinkConsumer.Consumer.RunForever: the stream-lag gauge, the statistics and the polling inside a backoff sleep are not modelled; replies of a foreign shape are taken as empty.
- SinkConsumer.Consumer.ProcessEntry: decoding and transforming a payload is an arbitrary function of the entry.
- RedisProducer.Producer.ThreadMain: latency sums and rate-limited logging are not modelled; the upstream pushes at the head of a turn and during a late shutdown.
- Sha256.HashChunks: the length field is modulo 2^64 bits as in the code; it is the true bit length for messages under 2^61 bytes.
- Dhcpv4Options.Parser.Parse: allocation failures, the fixed header's fields, the decoded options and the rendering of warnings are not modelled.
- JsonLog.Log: the timestamp is any text of at most 79 characters that needs no escaping, as the clock formatter yields; the reader used to state well-formedness knows the \u escapes below 80 hexadecimal.
- Integer overflow of timestamps and sizes: mathematical integers are used, with wrap-around written out where the source relies on it (checksums, lengths, hash input).
- The DHCPv6 and per-option DHCPv4 decoders, the cluster connection pool, configuration loading, ring-buffer capture and the sink row formats: field copying and foreign code, next to the algorithms chosen.
