# NetScope packet core, modelled and verified in Dafny

NetScope's `netscope_core` decodes captured Ethernet frames by hand, keeps traffic statistics and
prints JSON lines and hex dumps. This project models that core and proves what it guarantees for
every capture, every DNS message and every run of packets.

`dafny verify dfyconfig.toml` checks everything.

## How the model is built

- Captured bytes are `seq<byte>`; an output buffer the program writes into is an `array<char>`; text
  is a `string` with one character per byte. Loops of the program are methods with loops; each is
  proved against a specification function, and the theorems are about that function.
- **Names.** `DnsName` states what one position of a DNS message says (`StepAt`), what a name is
  according to section 4.1.4 of RFC 1035 (`Spells`: no buffer, no budget), the walk that the decoder
  makes with its budgets (`WalkFrom`), and the decoder. `DnsNameTheorems` proves soundness and
  completeness of the walk against the standard's reading, the cost bound, what happens on cycles,
  stability under more bytes, and that compression is transparent. `DnsNameBytes` says the same of
  the message's bytes: which bytes are a name, which positions the decoder visits and which byte
  earns which verdict.
- **Messages.** `DnsMessage` is what a message decodes to, `DnsParser` the loops and buffers that
  decode it, `DnsMessageTheorems` progress, size and stability, `DnsVerdicts` which
  messages are truncated and which malformed, `DnsRoundTrip` what a written message, compressed or
  not, is decoded to, and an encoder that decoding inverts.
- **Headers and frames.** `Headers` holds each header parser with the encoder that it inverts;
  `HeaderTheorems` proves both directions; `ExtensionChain` compares the bounded IPv6 walk with the
  unbounded chain, `ExtensionHeaders` with the headers written in the capture. `Dissection` is what a frame decodes to, layer by layer; `Dissector` is the
  object whose fields the stages fill; `DissectionTheorems` holds what every dissection guarantees,
  `FrameRoundTrip` that a frame shows exactly the headers written in it, `Verdicts` which bytes make
  the program call a frame malformed, and with which reason.
- **Statistics.** `FlowTable` is the open-addressing table, for any hash function and capacity, as a
  refinement of a bounded map; `FlowTrace` says what that map holds after any run; `Statistics` joins
  dissector, counters and table; `Conversations` says which frames share a flow in the header fields
  that are written in them.
- **Printers.** `Numerals` (digits, separated lists), `AddressText` and `AddressPrinter` (IPv4 and
  IPv6 text), `HexDump`, `Json` (a value type, its writer and a reader), `JsonLine` (the packet line),
  `JsonContent` (what a reader finds in that line).
- Constants of the program (budgets, buffer sizes, type numbers, echo types, ports) appear in the
  theorems as numbers, so that the theorems do not depend on the definitions that the model uses.

## What the proofs showed about the code

- `ns_dns_decode_name` with a one-byte buffer writes beyond it exactly when the name is the root,
  reached through at most 32 pointers (`OneByteAcceptsRoot`), which is therefore what `DecodeName`
  excludes. All callers pass 256 or 263 bytes. A 256-byte buffer admits text of up to 255 characters,
  two more than a name of 255 wire bytes (section 2.3.4 of RFC 1035) can have.
- The decoder reserves room for a dot behind the first label, so buffers under 65 bytes reject some
  one-label names that would fit: `ReservedDotRefuses` is an input, `DecodesExactly` gives the exact
  condition (`Fits`), and `CallersDecodeExactly` shows that it never matters for the buffers in use.
- Pointers are followed wherever they lead, not only to the prior occurrence of a name that section
  4.1.4 of RFC 1035 speaks of.
- The walk over IPv6 extension headers accepts at most seven of them, one fewer than its constant 8:
  `WalkIsBoundedChain`, with an input in `EighthHeaderIsRefused`. Of the headers of section 4 of RFC
  8200 it does not know Authentication (51) and ESP (50), at which it stops as if they were
  upper-layer headers.
- Behind a non-initial IPv4 fragment no transport header is read (`IPv4FragmentRule`). Behind an IPv6
  fragment, initial or not, one is read as in a whole packet, since nothing in a Fragment header but
  its next-header byte has any influence (`IPv6FragmentsLookWhole`).
- `ns_hex_dump`, with a sink that accepts every line, ends exactly for lengths of at most 2^64 - 16
  (`DumpEndsExactly`).
- In `ns_format_ipv6` the branch for an empty text, and in `ns_packet_set_payload` the branch for an
  offset beyond the capture, are never taken from inside the program (`WriteGroups`,
  `EveryByteAccounted`).

## Model

| member | source | states |
|---|---|---|
| DnsName.DecodeName | src/protocols/dns.c:20-89 | the decoder's verdict and its visited positions are those of the specified walk (in bytes: `DecoderInBytes`); on success the buffer holds the dotted text, terminated, and the end offset is that of the name's own bytes |
| DnsName.ReadStep | src/protocols/dns.c:32-71 | the reads at one position, length byte first, find what is written there or what is missing |
| DnsName.AppendLabel | src/protocols/dns.c:72-81 | a label is appended behind a dot unless it is the first, inside the buffer |
| DnsName.Terminate | src/protocols/dns.c:84-88 | the root is spelled "." and the text is terminated |
| DnsName.ResumeStep | src/protocols/dns.c:31-82 | one loop iteration keeps its place in the walk or gives the walk's verdict |
| DnsNameTheorems.SpellsUnique | src/protocols/dns.c:8-19 | the standard's reading of a name at a position is unique, in labels and in pointers followed |
| DnsNameTheorems.WalkSound | src/protocols/dns.c:31-88 | an accepted name is one the standard spells, through at most 32 pointers, and fits the buffer |
| DnsNameTheorems.WalkComplete | src/protocols/dns.c:31-88 | every name the standard spells through at most 32 pointers and that fits is accepted, with exactly its labels |
| DnsNameTheorems.DecodesExactly | src/protocols/dns.c:20-89 | for every buffer size: accepted if and only if some reading fits the budgets, and then with that reading's labels |
| DnsNameTheorems.CallersDecodeExactly | src/protocols/dns.c:72-75 | for buffers of at least 65 bytes, as all callers pass: accepted if and only if at most 32 pointers and text shorter than the buffer |
| DnsNameTheorems.ReservedDotRefuses | src/protocols/dns.c:72-75 | an input: a name that fits a two-byte buffer with its terminator is refused |
| DnsNameTheorems.OneByteAcceptsRoot | src/protocols/dns.c:84-87 | a one-byte buffer is written beyond if and only if the name is the root, reached through at most 32 pointers |
| DnsNameTheorems.VerdictByLastStep | src/protocols/dns.c:31-75 | the verdict is decided by what is read at the last position visited (in bytes: `DecoderInBytes`) |
| DnsNameTheorems.RevisitIsMalformed | src/protocols/dns.c:46-49 | a walk that comes back to a position is answered malformed; accepted and truncated walks never do |
| DnsNameTheorems.DecodeIsCheap | src/protocols/dns.c:31-82 | at most half the buffer size plus 33 iterations, whatever the message |
| DnsNameTheorems.WalkStable | src/protocols/dns.c:31-82 | more bytes of the message change no verdict other than truncated |
| DnsNameTheorems.AcceptedIsClosed | src/protocols/dns.c:42-45 | an accepted name ends behind its start and inside the message |
| DnsNameTheorems.NameEndIsLocal | src/protocols/dns.c:42-63 | where a name ends depends only on the bytes written at its own position |
| DnsNameTheorems.CompressionIsTransparent | src/protocols/dns.c:37-52 | a legal name and the same name with its tail replaced by a pointer to a (possibly compressed) copy decode to the same labels |
| DnsNameTheorems.SpellsPacked | src/protocols/dns.c:37-52 | a pointer behind written-out labels continues the name at its target, one pointer deeper |
| DnsNameBytes.DecoderInBytes | src/protocols/dns.c:31-88 | in byte values: each visited position leads to the next; Truncated exactly where bytes are missing, Malformed exactly at a length byte from 0x40 to 0xBF, a thirty-third pointer or a label that does not fit, Ok exactly at a zero byte |
| DnsNameBytes.SpellsExactly | src/protocols/dns.c:37-52 | a name is read at a position if and only if its length bytes, labels, pointers and zero byte are written there |
| DnsNameBytes.DecodesWrittenNames | src/protocols/dns.c:20-89 | for every buffer size: accepted if and only if a name with at most 32 pointers is written there that fits, and then with its labels |
| DnsNameBytes.NameEndExactly | src/protocols/dns.c:42-63 | a written name ends behind its zero byte, or behind its first pointer |
| DnsNameBytes.NameTextJoins | src/protocols/dns.c:76-88 | the text is the labels with dots between them, one dot for the root, and splits back into the labels |
| DnsParser.FormatTxt | src/protocols/dns.c:167-191 | the text is the leading complete character-strings joined, cut to the buffer and terminated |
| DnsParser.FormatMx | src/protocols/dns.c:150-165 | preference, blank and the exchange as a C string, untruncated, or failure exactly when the name is not accepted |
| DnsParser.FormatRdata | src/protocols/dns.c:193-222 | the text for the record's type, or the byte count |
| DnsParser.ParseQuestion | src/protocols/dns.c:91-122 | name, type and class with the next offset; the same verdict with and without an output slot |
| DnsParser.ParseRecord | src/protocols/dns.c:224-265 | all record fields with the next offset, or the verdict |
| DnsParser.ParseQuestions | src/protocols/dns.c:291-301 | all questions are parsed, the first four kept, and the first failure is the verdict |
| DnsParser.ParseAnswers | src/protocols/dns.c:303-310 | at most twelve answers are parsed and kept |
| DnsParser.ParseDns | src/protocols/dns.c:267-313 | the whole message's verdict and contents |
| DnsMessageTheorems.QuestionProgress | src/protocols/dns.c:104-120 | a question moves the offset by at least five bytes, inside the message |
| DnsMessageTheorems.RecordProgress | src/protocols/dns.c:234-263 | a record moves the offset by at least eleven bytes and its data, inside the message |
| DnsMessageTheorems.MessageSize | src/protocols/dns.c:289-312 | an accepted message is long enough for its counts, and four questions and twelve answers at most are kept |
| DnsMessageTheorems.NameStable | src/protocols/dns.c:20-89 | a settled name keeps its labels and end in every longer capture |
| DnsMessageTheorems.RdataStable | src/protocols/dns.c:193-222 | more bytes leave a record's text as it is unless it was the fallback |
| DnsMessageTheorems.RecordStable | src/protocols/dns.c:224-265 | a settled record keeps verdict, end and all fields but a fallback text |
| DnsMessageTheorems.MessageStable | src/protocols/dns.c:267-313 | truncation is the only message verdict that more bytes change; an accepted message keeps everything but fallback texts |
| DnsVerdicts.QuestionFails | src/protocols/dns.c:98-112 | a question is malformed exactly when its name is, truncated exactly when its name is or its four fixed bytes are missing |
| DnsVerdicts.RecordFails | src/protocols/dns.c:228-250 | a record is malformed exactly when its name is, truncated exactly when name, fixed bytes or announced data are cut off |
| DnsVerdicts.MessageFails | src/protocols/dns.c:267-312 | a message fails with the verdict on its first question or answer that cannot be read, and is truncated below twelve bytes |
| DnsVerdicts.ReservedLabelIsMalformed | tests/test_dns.c:99-110 | an input: a name that begins with 0x40 makes the message malformed |
| DnsRoundTrip.QuestionRoundTrip | src/protocols/dns.c:91-122 | a question with its name written out or compressed is recovered, ending at its end |
| DnsRoundTrip.ResourceRoundTrip | src/protocols/dns.c:224-265 | a written record is recovered in every field and in the text of its data, with the offset behind it |
| DnsRoundTrip.RdataRoundTrip | src/protocols/dns.c:124-222 | A, AAAA, NS, CNAME, PTR, MX and TXT data print as the text of what is written, all else as the byte count; printed addresses read back to their bytes |
| DnsRoundTrip.MessageRoundTrip | src/protocols/dns.c:267-313 | a message with any compression and any counts is recovered whole: header, first four questions, first twelve answers with their data's text, exact end |
| DnsRoundTrip.EncodedMessageRoundTrip | src/protocols/dns.c:267-313 | decoding inverts encoding for up to 65535 questions and answers, of which the first four and twelve are kept |
| Bytes.ReadPut16 | src/util.c:33-39 | the 16-bit reader inverts the big-endian writer |
| Bytes.ReadPut32 | src/util.c:41-48 | the 32-bit reader inverts the big-endian writer |
| HeaderTheorems.EthernetRoundTrip | src/protocols/ethernet.c:7-43 | every plain or tagged header is recovered, whatever follows and whatever the ignored priority bits |
| HeaderTheorems.EthernetSound | src/protocols/ethernet.c:7-43 | an accepted header is exactly the bytes captured |
| HeaderTheorems.IPv4RoundTrip | src/protocols/ipv4.c:9-79 | every valid header is recovered, with flags, fragment fields and length |
| HeaderTheorems.IPv4Sound | src/protocols/ipv4.c:21-56 | an accepted header is valid, captured whole and encodes to the captured bytes |
| HeaderTheorems.IPv6RoundTrip | src/protocols/ipv6.c:7-40 | every valid header is recovered |
| HeaderTheorems.IPv6Sound | src/protocols/ipv6.c:7-40 | an accepted header is exactly the bytes captured |
| HeaderTheorems.ArpRoundTrip | src/protocols/arp.c:11-49 | every Ethernet/IPv4 ARP packet is recovered |
| HeaderTheorems.ArpSound | src/protocols/arp.c:24-34 | an accepted packet is exactly the bytes captured |
| HeaderTheorems.TcpRoundTrip | src/protocols/tcp.c:10-54 | every valid header is recovered, with its options' length |
| HeaderTheorems.TcpSound | src/protocols/tcp.c:30-38 | an accepted header is valid, captured whole and encodes to the captured bytes |
| HeaderTheorems.UdpRoundTrip | src/protocols/udp.c:7-34 | every header with a possible length is recovered |
| HeaderTheorems.UdpSound | src/protocols/udp.c:24-26 | an accepted header is exactly the bytes captured and claims at least its own length |
| HeaderTheorems.EchoRoundTrip | src/protocols/icmp.c:9-37 | echo messages keep identifier and sequence; any other message is recovered from its first four bytes, whatever follows |
| HeaderTheorems.EchoSound | src/protocols/icmpv6.c:9-37 | an accepted message is exactly the bytes captured, eight for echo types and four for others |
| HeaderTheorems.EthernetStable | src/protocols/ethernet.c:9-38 | truncation is the only Ethernet verdict that more bytes change |
| HeaderTheorems.IPv4Stable | src/protocols/ipv4.c:11-56 | truncation is the only IPv4 verdict that more bytes change |
| HeaderTheorems.IPv6Stable | src/protocols/ipv6.c:9-19 | truncation is the only IPv6 verdict that more bytes change |
| HeaderTheorems.ArpStable | src/protocols/arp.c:12-34 | truncation is the only ARP verdict that more bytes change |
| HeaderTheorems.TcpStable | src/protocols/tcp.c:12-38 | truncation is the only TCP verdict that more bytes change |
| HeaderTheorems.UdpStable | src/protocols/udp.c:8-26 | truncation is the only UDP verdict that more bytes change |
| HeaderTheorems.EchoStable | src/protocols/icmp.c:10-36 | truncation is the only ICMP verdict that more bytes change |
| ExtensionChain.SkipExtensionHeaders | src/protocols/ipv6.c:49-90 | the loop is the bounded walk, in verdict, offset and next header, also on failure (in bytes: `WalkExactly`, `FailedWalk`) |
| ExtensionChain.SkipFollows | src/protocols/ipv6.c:51-89 | with any budget the walk succeeds exactly on shorter chains and ends where the unbounded chain does |
| ExtensionChain.SkipReach | src/protocols/ipv6.c:63-80 | the walk moves in steps of eight bytes, at most 2048 a header, and stays in the capture |
| ExtensionChain.WalkIsBoundedChain | src/protocols/ipv6.c:49-90 | the walk is the unbounded chain cut after seven headers; advances are multiples of eight, at most 7 * 2048, inside the capture |
| ExtensionChain.EighthHeaderIsRefused | src/protocols/ipv6.c:51-89 | an input: a captured chain of eight headers that reaches an upper-layer header is refused |
| ExtensionChain.SkipStable | src/protocols/ipv6.c:51-89 | more bytes keep a success and a too-long chain, and never move the walk back |
| ExtensionChain.SkipIgnoresFragment | src/protocols/ipv6.c:71-81 | nothing in a Fragment header behind its next-header byte changes the walk |
| ExtensionHeaders.WalkExactly | src/protocols/ipv6.c:49-90 | success with an offset and a header if and only if at most seven encoded headers of kinds 0, 43, 44 and 60 are written one behind the other and lead there |
| ExtensionHeaders.FailedWalk | src/protocols/ipv6.c:56-89 | a failed walk stops behind the written headers, because they are eight or because the next was not captured whole |
| Dissector.PacketBuffer.SetPayload | src/packet.c:13-22 | the payload is the suffix at the offset, or nothing beyond the capture |
| Dissector.PacketBuffer.ParseDnsIfApplicable | src/packet.c:24-38 | DNS is present exactly when a port is 53 and the payload decodes |
| Dissector.PacketBuffer.ParseTransport | src/packet.c:115-177 | the stage leaves the packet with the transport layer, payload, DNS and verdict of the layer specification (in bytes: `TransportJudged`) |
| Dissector.PacketBuffer.ParseIPv4Stage | src/packet.c:40-67 | the stage leaves the packet with the specified IPv4 layers |
| Dissector.PacketBuffer.ParseIPv6Stage | src/packet.c:69-96 | the stage leaves the packet with the specified IPv6 layers, also when the chain is invalid |
| Dissector.PacketBuffer.ParseArpStage | src/packet.c:98-108 | unsupported ARP is no layer and not malformed, truncated ARP is malformed |
| Dissector.PacketBuffer.constructor | src/packet.c:179-221 | the filled packet is the dissection of the capture (in bytes: `VerdictExactly`, `ShownHeadersExactly`, `FrameExactly`) |
| DissectionTheorems.EveryByteAccounted | src/packet.c:13-177 | the payload is always a suffix; under a transport layer all header lengths and the payload add up to the capture |
| DissectionTheorems.NetworkPayload | src/packet.c:55-95 | under a transport layer the payload starts behind network, extension and transport headers |
| DissectionTheorems.DissectionIsWellLayered | src/packet.c:40-221 | no DNS without a port 53 segment, no transport without an IP layer, none behind a non-initial IPv4 fragment, no undecoded Ethernet frame without a verdict |
| DissectionTheorems.IPv4FragmentRule | src/packet.c:59-66 | an IPv4 packet's transport header is read if and only if its fragment offset is zero |
| DissectionTheorems.IPv6FragmentsLookWhole | src/packet.c:81-95 | two captures that differ only in what a Fragment header says about its fragment decode to the same layers |
| DissectionTheorems.TransportGrows | src/packet.c:115-177 | a decoded or clean transport stage is the same in every longer capture, and an inconsistency stays |
| DissectionTheorems.IPv4Grows | src/packet.c:40-67 | the same for the IPv4 stage with everything above it |
| DissectionTheorems.IPv6Grows | src/packet.c:69-96 | the same for the IPv6 stage with its extension headers and everything above it |
| DissectionTheorems.DnsLayerGrows | src/packet.c:32-35 | decoded DNS stays decoded and is refined by more bytes |
| DissectionTheorems.DissectionGrows | src/packet.c:179-221 | more captured bytes keep every decoded layer, a clean verdict with its payload start, and an inconsistency; DNS can only appear |
| DissectionTheorems.LongChainStaysInvalid | src/packet.c:86-92 | a chain that is too long stays invalid in every longer capture |
| FrameRoundTrip.FrameRoundTrip | src/packet.c:40-221 | a frame with Ethernet, IPv4 or IPv6 with extension headers, and any TCP, UDP, ICMP or ICMPv6 header is recovered in all headers and in its payload, whatever the ignored bits |
| FrameRoundTrip.FrameSound | src/packet.c:40-221 | the three headers that a dissection shows are written in the capture, one behind the other, and lead to the payload |
| FrameRoundTrip.FrameExactly | src/packet.c:40-221 | a frame dissects to given headers and payload if and only if they are written in it |
| FrameRoundTrip.ShownHeadersExactly | src/packet.c:40-221 | with or without a transport layer: an Ethernet or network header is shown if and only if it is written, the latter behind an Ethernet header that names it |
| FrameRoundTrip.TransportExactly | src/packet.c:115-177 | a transport header is shown if and only if its protocol is named and it is written at the offset |
| FrameRoundTrip.IPv4LayerExactly | src/packet.c:40-67 | IPv4 and transport headers are shown if and only if both are written and the fragment offset is zero |
| FrameRoundTrip.IPv6LayerExactly | src/packet.c:69-96 | IPv6 and transport headers are shown if and only if both are written, at most seven extension headers apart |
| FrameRoundTrip.ArpFrameExactly | src/packet.c:98-108 | a frame dissects to an ARP packet if and only if Ethernet header, type and packet are written in it |
| Verdicts.VerdictExactly | src/packet.c:40-221 | every malformed reason, no reason, and the payload start, each if and only if a condition on the captured bytes: cut off or inconsistent headers, invalid chains; unknown types and protocols, fragments and unsupported ARP are no fault |
| Verdicts.TransportJudged | src/packet.c:115-177 | a protocol other than 1, 6, 17 and 58 yields no transport, no verdict and the payload at the offset; the four are judged by their bytes |
| Verdicts.IPv4Judged | src/packet.c:40-67 | the IPv4 stage's verdict and payload by version, lengths, fragment offset and protocol bytes |
| Verdicts.IPv6Judged | src/packet.c:69-96 | the IPv6 stage's verdict and payload by version byte and written extension headers |
| Verdicts.OtherLinksAreBlank | src/packet.c:185-196 | captures of other links are neither decoded nor judged |
| FlowTable.CompareIsOrder | src/stats.c:85-92 | string comparison is antisymmetric and zero exactly on equal texts |
| FlowTable.CanonicalKeys | src/stats.c:83-92 | two keys agree if and only if protocol and unordered endpoints agree |
| FlowTable.Table.constructor | src/stats.c:9-11 | the fresh table holds no flow |
| FlowTable.Table.Locate | src/stats.c:94-118 | probing passes only over other flows and stops at the key's slot, at a free slot or after all slots |
| FlowTable.Table.Bump | src/stats.c:99-104 | a known flow's totals grow and the table stays consistent |
| FlowTable.Table.Claim | src/stats.c:106-117 | a new flow takes the free slot, uncut, and the table stays consistent |
| FlowTable.Table.Record | src/stats.c:81-122 | one packet is exactly one step of the bounded map: add, insert while fewer than the capacity, else nothing |
| FlowTable.RepresentsMeans | src/stats.c:94-117 | used slots hold distinct keys with the map's totals, every flow has its slot, and the count of used slots is the number of flows |
| FlowTable.Hit | src/stats.c:99-104 | updating the key's own slot represents the map with new totals |
| FlowTable.Insert | src/stats.c:106-117 | a free slot on the probing path means the key is new and the table not full; filling it represents the larger map |
| FlowTable.Full | src/stats.c:119-122 | probing every slot in vain means the key is new and the table full |
| FlowTrace.ReplayIsExact | src/stats.c:94-122 | after any run the tracked flows are the first distinct flows up to the capacity, with exact totals over the whole run |
| FlowTrace.ExactStep | src/stats.c:94-122 | one more packet keeps the tracked flows exact: known, new with room left, or new to a full table |
| FlowTrace.ReplayIgnoresOrder | src/stats.c:119-122 | while the distinct flows fit, the result does not depend on packet order |
| Statistics.TextIdentifiesAddress | src/stats.c:24-34 | two addresses have the same text exactly when they are the same bytes of the same family |
| Conversations.ConversationExactly | src/stats.c:16-59 | a frame belongs to a conversation if and only if its written headers carry that protocol from that address and port to that address and port |
| Conversations.RecordedExactly | src/stats.c:171-177 | a frame is recorded in a flow if and only if its written headers name two endpoints |
| Conversations.FlowIdentity | src/stats.c:16-92 | two frames fall into one flow if and only if their written headers agree in protocol and in the unordered pair of address bytes and ports |
| Statistics.FormatAddress | src/stats.c:171-175 | an address text fits the 46-byte buffer uncut |
| Statistics.Stats.constructor | src/stats.c:9-11 | all counters zero and no flow |
| Statistics.Stats.CountPacket | src/stats.c:124-169 | each counter grows by one exactly for packets with its property |
| Statistics.CountNetwork | src/stats.c:133-148 | exactly the counter of the packet's network layer grows, or that of unsupported frames |
| Statistics.CountTransport | src/stats.c:150-165 | exactly the counter of the packet's transport layer grows |
| Statistics.Stats.Update | src/stats.c:124-178 | the counters count the packet and the flow map takes its step, if the packet has endpoints (in header fields: `ConversationExactly`) |
| Statistics.CountersConsistent | src/stats.c:215-216 | after every run the counters bound each other, and "Other" is exactly the number of packets without transport layer and not ARP |
| Statistics.CountersExact | src/stats.c:124-169 | after every run each counter is the number of frames with its property, and the two byte counts are the sums of captured and original lengths |
| Statistics.RunCapture | src/main.c:33-37 | dissecting and counting a run leaves the specified counters and the first 1024 flows with exact totals |
| Statistics.RunIgnoresOrder | src/stats.c:119-122 | a run of at most 1024 flows leaves the same table in whatever order its frames come |
| Conversations.FlowCountsConversation | src/stats.c:81-122 | the entry of a frame's flow holds the number and captured bytes of exactly the frames written between the same two endpoints, in both directions |
| Conversations.FlowIsTracked | src/stats.c:119-122 | with at most 1024 flows every recorded frame's flow is in the table |
| Numerals.DigitIs | src/util.c:114 | the sixteen digits are 0 to 9 and a to f |
| Numerals.DigitsAreCanonical | src/util.c:67-70 | a number is written in digits that read back to it, without leading zeros |
| AddressText.IPv4RoundTrip | src/util.c:67-70 | an IPv4 text reads back to its bytes |
| AddressText.IPv4Length | src/util.c:67-70 | an IPv4 text has at most 15 characters |
| AddressText.CompressedIsCanonical | src/util.c:78-100 | the compressed run is a longest zero run of at least two groups, and the first of these (RFC 5952) |
| AddressText.TextIsCanonical | src/util.c:102-121 | the text is the groups in hexadecimal with the first longest run of two or more zero groups, and nothing else, written as "::" |
| AddressText.IPv4TextIs | src/util.c:67-70 | the text is the four numbers in decimal with dots between them |
| AddressText.IPv6RoundTrip | src/util.c:72-124 | an IPv6 text reads back to its 16 bytes |
| AddressText.IPv6Length | src/util.c:102-121 | an IPv6 text has at most 39 characters |
| AddressText.FamiliesDiffer | src/util.c:67-124 | no IPv4 text is an IPv6 text |
| AddressPrinter.FindRun | src/util.c:78-100 | the scan finds the run to compress |
| AddressPrinter.WriteGroups | src/util.c:102-116 | the writing loop produces the address text, never empty, without overrunning 46 bytes |
| AddressPrinter.FormatIPv6 | src/util.c:72-124 | the buffer holds the terminated address text, cut to its size, and uncut from 40 bytes on |
| HexDump.AppendLine | src/util.c:165-189 | as much text as fits is appended and the position never passes the buffer |
| HexDump.WriteLine | src/util.c:195-220 | a line is built whole: the clamp is never met |
| HexDump.Dump | src/util.c:191-227 | the sink receives the lines up to its first refusal, and the result is false exactly on a refusal |
| HexDump.DumpEndsExactly | src/util.c:196 | the loop's offset reaches the length, without wrapping around, if and only if the length is at most 2^64 - 16 |
| HexDump.DumpRoundTrip | src/util.c:191-227 | every byte sequence reads back from its dump, which has one line per sixteen bytes begun |
| HexDump.DumpShows | src/util.c:196-218 | the k-th line shows offset 16 k in at least four digits, two digits for each byte and each byte's character or a dot, each at its place |
| HexDump.SentExactly | src/util.c:222-226 | the sink is sent the lines up to and with the first that it refuses |
| Json.ReadStringBack | src/output.c:285-313 | unescaping recovers every NUL-free byte string |
| Json.ReadValueBack | src/output.c:315-394 | every written value is well-formed JSON and reads back |
| Json.RenderIsPrintable | src/output.c:276-284 | every written byte is printable seven-bit text |
| JsonLine.WriteEscaped | src/output.c:285-313 | the C string is written quoted and escaped, up to its first NUL |
| JsonLine.WriteFlags | src/output.c:360-381 | the set flags are listed in table order, separated by commas |
| JsonLine.WriteEndpoint | src/output.c:338-358 | an endpoint object holds the address text and, under TCP and UDP, the port |
| JsonLine.WriteDns | src/output.c:383-391 | the DNS object holds the first question's name and type name |
| JsonLine.WriteBase | src/output.c:327-334 | time, captured length, verdict and protocol open the object |
| JsonLine.PrintJsonLine | src/output.c:315-394 | the line is the packet's JSON object and a newline (field by field: `LineSays`) |
| JsonLine.LineIsOneObject | src/output.c:315-394 | for every captured frame the line is one printable JSON object that reads back whole, followed by its only newline |
| JsonContent.LineSays | src/output.c:315-394 | a reader finds under each key, once, what was decoded: verdict, innermost protocol, addresses that read back to their bytes, ports in their direction, exactly the set TCP flags, the first DNS question and its type; other keys are absent |
| JsonContent.WrittenFrameLine | src/output.c:336-391 | for a frame with written headers these are the fields of those headers and the DNS message in the payload, and no fault |
| JsonContent.ShownQuestion | src/output.c:383-391 | the question shown is the first one written in the message |

## Left out

- Capture, signals, process wiring and files (src/capture.c, src/signal_handler.c, src/main.c): libpcap and system calls; a run of frames is a parameter.
- Command line and filter strings (src/config.c, src/filter.c): flag assignment and a fixed concatenation.
- Text and verbose output, colours, help and log text (src/output.c, src/log.c): terminal formatting only.
- Time stamps: the formatted time is a parameter of `PrintJsonLine`; packet number and time are not part of `Packet`.
- 64-bit counters are natural numbers: wrap-around after 2^64 packets or bytes is not modelled.
- The FNV hash of src/stats.c:61-79: every table theorem holds for any hash of the canonical key.
- The sorted "Top conversations" list, percentages and byte units of src/stats.c: a library sort and floating-point display.
- Authority and additional records and TCP length framing of DNS: the program does not decode them.
- Header parsers are functions on values: they assign each field of a fresh structure once, so update in place is not part of their model; leftovers that a failed parser writes into an unused union are not either.
- HexDump.Dump: for captures up to 2^64 - 16 bytes; beyond that the program does not end (`DumpEndsExactly`).
- DnsName.DecodeName: not for the root name with a one-byte buffer, where the program writes beyond the buffer (`OneByteAcceptsRoot`).
- Json.ReadValueBack: the reader accepts compact JSON without blanks, numbers without fraction, and escapes below the surrogate range, which is all that is written.
