# Verified model of the meeting client's media path and codecs

This project models, in Dafny 4.11, the deterministic byte-level core of the
client and proves what it is for: H.264 over RTP from the frame handed to the
sender to the frame handed to the decoder, the reorder window in between, and
the codecs of the signalling link (WebSocket, base64, SHA-1 padding, topic
matching, JSON, UTF-8, Exp-Golomb). Code that changes buffers step by step is
modelled as methods over arrays and classes, each proved against a function on
values; the theorems are about those functions. `dafny verify dfyconfig.toml`
checks everything.

| file | what it models |
|---|---|
| Bytes | octets, words in network order, concatenation |
| AnnexB | the start-code search, splitting, counting and key-frame scan |
| RtpPacket, PacketBuilder, VideoSession | header layout and parser, packetisation, the sending session |
| FrameAssembler, RoomUser, EndToEnd | reassembly, frame accumulation, the path as a whole |
| WireForm | the datagrams of a frame octet by octet, and a receiver by the letter of RFC 6184 |
| ReorderWindow, ReorderedDelivery | the bounded reorder list over whole runs, and the path through it |
| WebSocket, WebSocketConnection, WebSocketDelivery, WebSocketMessages, WebSocketAnswers | framing, the connection handler, independence of read boundaries, message delivery, handler calls and pongs |
| Glob, Sha1, Base64 | topic matching, streaming hash, base64 |
| Utf8, ExpGolomb | the UTF-8 checks, the bit readers |
| Json, JsonText, JsonReader, JsonWriter, JsonObjects, JsonRoundTrip, JsonBlanks | values, string rewriting, parser, printer, round trip, blanks and grammar |

## Conventions

- A byte is an integer from 0 to 255; words wrap explicitly (`% 0x1_0000_0000`).
  Masks with powers of two are written as quotients and remainders, except in the
  word-at-a-time search, which uses bit vectors.
- A slice (`pointer, length`) into the caller's frame is the sequence it denotes.
  Memory that the code reads behind a payload is an explicit parameter `past`; the
  theorems hold for every value of it.
- `up(i)` says whether the transmitter takes the i-th datagram; `masks(i)` is the
  i-th random mask; the block transform of SHA-1 is a parameter; `nowMs` is the clock.
- Each format is fixed twice: by the functions that the methods are proved against, and by
  theorems that give the same octets and characters as plain numbers and literals, or
  through a reader that shares nothing with the code (`Bytes.Number`, `WireForm.Depacketized`).
- In JSON a byte is the character of the same number. `long` has 64 bits and `atol`
  saturates. A `std::map` is the sequence of its members in key order, and
  `Json.PutGets` and `Json.PutKeepsSorted` justify that. Assigning a value copies it
  deeply, so trees are values; the object a method is called on is a class.

## Where the code falls short of what one would promise

Each of these is a theorem; where the promise fails, the exact condition is proved.

- The grouping test is strict, so a group can exceed the payload size, exactly when
  some proper prefix of it fills it (`PacketBuilder.GroupingSizes`).
- The bounds check for a unit of an aggregation packet does not count the type and size
  fields written in front of it. So a call can write past the send buffer, by at most two
  bytes, whether it succeeds (`PacketBuilder.OverrunHappens`) or fails
  (`PacketBuilder.FailureOverruns`). It does exactly if, going by the sizes, some number of
  leading units of an aggregation end one byte past the buffer, or its first unit alone two
  bytes past it (`PacketBuilder.CallPastEndIff`). Successful calls have only one such case
  (`PacketBuilder.SuccessStaysInside`). The model's array has two spare bytes to show this.
- The session sends only 16 bits of the sequence number. A stream that arrives in order comes
  through the reorder window exactly if its numbers neither start at 0, which the blank
  packet has, nor pass the 16-bit wrap (`ReorderedDelivery.InOrderRestoredIff`). Past the
  wrap no window and no order of arrival restores it: the packet numbered 65535 stays in the
  list for good (`ReorderedDelivery.NotRestoredPastWrap`).
- A final continuation without payload and with nothing kept hands over a message whose
  length, `ofs - 1`, has wrapped, and nothing else does (`WebSocketDelivery.TurnGarbledIff`,
  `WebSocketDelivery.DrainGarbledIff`). Its flags are the byte behind the frame. The model
  records such a hand-over with its flags only (`Garbled`). Because of that byte, what is
  delivered can depend on where the reads cut the stream; a stream is safe to cut anywhere
  exactly when no such frame has a nonzero byte behind it
  (`WebSocketDelivery.SafeToCutIff`).
- These are calls of the handler, and the event loop reads nothing more from a connection
  that is closing (src/websocket/mongoose.cpp:3718, 3733). So what follows a close frame or an
  unknown opcode is handled if it comes in the same read and lost if it comes in a later one
  (`WebSocketDelivery.ClosingLosesReads`). Of an unexposed stream, every cut into two reads
  delivers the same exactly if nothing is delivered by the frames behind the one that starts
  the closing (`WebSocketDelivery.OpenCutsIff`).
- The matcher compares a wildcard of the pattern literally first. So a `#` in the subject
  can hide a match: "#a" does not match "#", which stands for anything, and `Glob.HashHidesMatch`
  gives such a pattern for every subject with a `#`. It can also make the loop run in a circle
  (`Glob.WildcardSubjectCycles`). The matcher decides every pattern of literals, `?` and `#`
  exactly if the subject holds no `#` (`Glob.MatcherWorksIff`).
- The reader of JSON strings takes a closing quote after a backslash for an escaped
  one, and undoes `\b` and the like inside a doubled backslash. A string comes back
  exactly if it does not end in a backslash and no backslash stands right before one of
  the letters b, f, n, r, t (`JsonRoundTrip.TextReadsBackIff`). Keys are printed
  unescaped (`JsonRoundTrip.KeyReadsBackIff`); negative numbers and numbers from 2^63
  on do not come back (`JsonRoundTrip.IntReadsBackIff`); `null` comes back undefined.
- The reader of JSON skips blanks everywhere but between the braces of an empty object and
  the brackets of an empty array: those are read exactly if they hold no blank
  (`JsonBlanks.EmptyReadsIff`). It takes a comma in front of the closing character
  (`JsonBlanks.BehindValue`).
- The order of an array's keys is the order of its elements exactly up to ten elements
  (`Json.ArrayOrderIff`). From eleven on, what was stored under 10 comes back under 2
  (`JsonRoundTrip.TenBecomesTwo`).
- Printing a JSON object twice gives the same text exactly if no string in it, at any depth,
  holds a backslash, a slash, a quote or one of the five control characters that have a code
  (`JsonWriter.SecondWriteIff`).
- The second UTF-8 check accepts byte sequences that are not UTF-8
  (`Utf8.GroupedIsLax`). What it accepts is well-formed exactly if a scan finds no byte C0,
  C1 or F5 and above, no overlong or out-of-range pair and no U+FFFE
  (`Utf8.SecondCheckIff`).

## Model

| member | source | states |
|---|---|---|
| AnnexB.WordTestIsExact | src/codec/codec_utils.cpp:30-32 | the zero-byte mask of a 32-bit word is nonzero exactly when some octet of it is zero |
| AnnexB.FirstCodeIsLeast | src/codec/codec_utils.cpp:16-69 | the naive scan reports a code with a byte behind it, and no earlier position below end-3 holds one |
| AnnexB.FirstCodeIs | src/codec/codec_utils.cpp:16-69 | that property determines the result, so it specifies the search |
| AnnexB.FindStartCodeInternal | src/codec/codec_utils.cpp:16-69 | the search a word at a time finds what the naive scan finds, for every content, length and alignment, and reads only inside the data |
| AnnexB.FindStartCode | src/codec/codec_utils.cpp:71-80 | the public search moves one back exactly for a four-byte code |
| AnnexB.SplitStep | src/rtp/rtp_h264_packet_builder.cpp:253-278 | one turn of the splitting loop takes at most one unit and moves strictly forward |
| AnnexB.SplitUndoesJoin | src/rtp/rtp_h264_packet_builder.cpp:253-278 | splitting units joined by any mixture of 3- and 4-byte codes gives exactly those units |
| AnnexB.JoinUndoesRawUnits | src/rtp/rtp_h264_packet_builder.cpp:253-278 | for any byte stream, joining what splitting found gives the stream back from its first code on |
| AnnexB.UnitsHoldNoCode | src/rtp/rtp_h264_packet_builder.cpp:253-278 | no unit of a split holds a start code that the search would report |
| AnnexB.CountFrames | src/codec/codec_utils.cpp:179-203 | the count is the number of units of the split |
| AnnexB.FindKeyFrame | src/codec/codec_utils.cpp:82-112 | true exactly when the first unit of type 1 or 5 is of type 5 |
| AnnexB.CodeOctets | src/codec/codec_utils.cpp:16-80 | a start code is the three octets 0, 0, 1, the long one four |
| AnnexB.KeyFrameIff | src/codec/codec_utils.cpp:82-112 | the scan answers true if and only if some unit has type 5 and none in front of it type 1 or 5 |
| Bytes.NetworkOrder32 | src/rtp/rtp_h264_packet_builder.cpp:178-195 | the octets of a built word spell its number, most significant first |
| Bytes.WordsSpelled | src/rtp/rtp_packet.cpp:44-50 | a word read from a buffer is the number its octets spell |
| RtpPacket.HeaderAt | src/rtp/rtp_h264_packet_builder.cpp:178-195 | every octet of the two built headers, at its offset |
| RtpPacket.RTPPacket.ReadFixedHeader | src/rtp/rtp_packet.cpp:33-50 | the fields of the first twelve octets in host order |
| RtpPacket.RTPPacket.ReadExtension | src/rtp/rtp_packet.cpp:63-86 | the extension fields, with the high half joined to the sequence number; other fields stay |
| RtpPacket.RTPPacket.Parse | src/rtp/rtp_packet.cpp:25-98 | accepts exactly version 2 with a three-word extension and nonzero padding count, and then holds the big-endian fields |
| RtpPacket.PayloadInsideIff | src/rtp/rtp_packet.cpp:25-98 | the payload lies inside the datagram exactly when the padding count leaves room; else its length has wrapped below zero |
| RtpPacket.ParseUndoesBuild | src/rtp/rtp_packet.cpp:25-98 | parsing a built packet gives back every field and the payload |
| RtpPacket.HeadersPresentIff | src/rtp/rtp_packet.cpp:63-86 | what the code demands of a datagram, by its first octet and length |
| RtpPacket.ParsesIff | src/rtp/rtp_packet.cpp:25-98 | what is accepted, by the values of five octets |
| RtpPacket.ParseUndoesLayout | src/rtp/rtp_packet.cpp:25-98 | the round trip with any CSRC words and any padding: every field is the number its octets spell, and the payload comes back without the padding |
| PacketBuilder.GroupingKeepsUnits | src/rtp/rtp_h264_packet_builder.cpp:280-348 | grouping handles every unit exactly once and in order |
| PacketBuilder.GroupingSizes | src/rtp/rtp_h264_packet_builder.cpp:280-348 | a group exceeds 1372 bytes exactly when a proper prefix of it sums to 1372; only larger units are fragmented |
| PacketBuilder.GroupingIsGreedy | src/rtp/rtp_h264_packet_builder.cpp:280-348 | a group is closed only when the next unit would not have gone in |
| PacketBuilder.FullGroupTakesAll | src/rtp/rtp_h264_packet_builder.cpp:280-348 | a group that is exactly full takes all small units that follow |
| PacketBuilder.FragmentAt | src/rtp/rtp_h264_packet_builder.cpp:124-162 | fragment k copies from offset 1370*k of the body |
| PacketBuilder.FragmentationShape | src/rtp/rtp_h264_packet_builder.cpp:78-166 | ceil((L-1)/1370) fragments, at least two, at most 1400 bytes as packets, start bit on the first only, end bit on the last only |
| PacketBuilder.PacketAt | src/rtp/rtp_h264_packet_builder.cpp:98-156 | packet i has sequence start+i modulo 2^32 and payload i |
| PacketBuilder.PacketParsesBack | src/rtp/rtp_h264_packet_builder.cpp:98-156 | packet i parses back to that sequence, the same timestamp and SSRC and its payload |
| PacketBuilder.TilingCuts | src/rtp/rtp_h264_packet_builder.cpp:151-156 | the returned slices are consecutive from the start of the buffer and each cuts out its own packet |
| PacketBuilder.ItemFitsIff | src/rtp/rtp_h264_packet_builder.cpp:168-251 | the chain of tests for one packet or one fragmented unit, in closed form |
| PacketBuilder.AllFitIff | src/rtp/rtp_h264_packet_builder.cpp:280-348 | a call succeeds exactly when the total size passes the test of its last item |
| PacketBuilder.SuccessStaysInside | src/rtp/rtp_h264_packet_builder.cpp:218-250 | a successful call ends past the buffer exactly when it ends in an aggregation packet that is one byte too long |
| PacketBuilder.OverrunHappens | src/rtp/rtp_h264_packet_builder.cpp:218-250 | a frame of 191 clean units for which that happens |
| PacketBuilder.StapEndPastIff | src/rtp/rtp_h264_packet_builder.cpp:220-244 | the loop over the units, refused or not, ends past the buffer if and only if some leading units do, and never by more than two bytes |
| PacketBuilder.CallPastEndIff | src/rtp/rtp_h264_packet_builder.cpp:280-348 | the same for every call, successful or not, by the sizes of what it builds |
| PacketBuilder.FailureOverruns | src/rtp/rtp_h264_packet_builder.cpp:218-244 | a frame on which a call fails and has written past the buffer |
| PacketBuilder.RTPH264PacketBuilder.IncrementTimestampBy | src/rtp/rtp_h264_packet_builder.cpp:73-76 | the timestamp moves on modulo 2^32 and nothing else changes |
| PacketBuilder.RTPH264PacketBuilder.SendData | src/rtp/rtp_h264_packet_builder.cpp:253-278 | the stored units are those of the split |
| PacketBuilder.RTPH264PacketBuilder.AppendStapA | src/rtp/rtp_h264_packet_builder.cpp:218-244 | succeeds exactly when all tests pass, and then has appended the aggregation payload; in both outcomes, where the position ends |
| PacketBuilder.RTPH264PacketBuilder.BuildPacket | src/rtp/rtp_h264_packet_builder.cpp:168-251 | appends one packet with the next sequence number, or fails without changing slices or sequence; in both outcomes, where the position ends |
| PacketBuilder.RTPH264PacketBuilder.AppendFragment | src/rtp/rtp_h264_packet_builder.cpp:91-156 | one fragment packet, appended exactly when it leaves a spare byte |
| PacketBuilder.RTPH264PacketBuilder.BuildFuaPacket | src/rtp/rtp_h264_packet_builder.cpp:78-166 | all fragments, or exactly a prefix of them when the buffer is full; in both outcomes, where the position ends |
| PacketBuilder.RTPH264PacketBuilder.ReceiveRtpPackets | src/rtp/rtp_h264_packet_builder.cpp:280-348 | buffer, slices and sequence after the whole call are those of the grouped packets, in full or up to the first that does not fit; the position ends where `CallPastEndIff` is about |
| VideoSession.PatchedHeader | src/rtp/rtp_session_video.cpp:131-145 | overwriting marker, sequence halves and timestamp in place gives the header of the patched fields |
| VideoSession.PatchedWire | src/rtp/rtp_session_video.cpp:131-145 | the slice of the buffer is then the patched packet |
| VideoSession.RTPSessionVideo.PatchPacket | src/rtp/rtp_session_video.cpp:131-145 | one packet patched in place; nothing behind it changes |
| VideoSession.RTPSessionVideo.Transmit | src/rtp/rtp_session_video.cpp:131-151 | the datagrams handed over are the patched packets up to the first refusal |
| VideoSession.RTPSessionVideo.SendH264Data | src/rtp/rtp_session_video.cpp:107-154 | a frame that fits is sent as its patched packets, marker on the last only; one that does not sends nothing |
| VideoSession.AcceptedIff | src/rtp/rtp_session_video.cpp:146-151 | the packets taken are those in front of the first refusal |
| FrameAssembler.RTPH264FrameAssembler.PushPacket | src/rtp/rtp_h264_frame_assembler.cpp:50-122 | result and held bytes after any payload, by its type |
| FrameAssembler.RTPH264FrameAssembler.GetStapaFrame | src/rtp/rtp_h264_frame_assembler.cpp:124-175 | the units of an aggregation payload, each behind its own start code |
| FrameAssembler.RTPH264FrameAssembler.GetFuaFrame | src/rtp/rtp_h264_frame_assembler.cpp:177-235 | a fragment starts or extends the held unit; true exactly on the end bit |
| FrameAssembler.CodeChosen | src/rtp/rtp_h264_frame_assembler.cpp:81 | the three-octet code is chosen exactly in front of 0x65, or of 0x61 or 0x41 with an octet below 0x80 behind it |
| FrameAssembler.PushByType | src/rtp/rtp_h264_frame_assembler.cpp:50-122 | what a push returns and leaves for each value of the type and of the start and end bits |
| FrameAssembler.UnpackByOctets | src/rtp/rtp_h264_frame_assembler.cpp:124-175 | aggregation units by their length octets; one or two octets left over are ignored, a length past the end leaves nothing |
| FrameAssembler.RoomIff | src/rtp/rtp_h264_frame_assembler.cpp:221-234 | the room that the code takes for granted, in numbers |
| RoomUser.RoomUser.AccumulateHeld | src/application/app_room_user.cpp:238-262 | held bytes join the frame, the marker hands it over and empties it |
| RoomUser.RoomUser.ReceiveVideo | src/application/app_room_user.cpp:228-267 | the receiver's whole state after one packet, or after none |
| RoomUser.FrameLimit | src/application/app_room_user.cpp:238-262 | what is accumulated stays below 1048576 bytes, started over by the part that would reach it |
| EndToEnd.OnlyMarkerDelivers | src/application/app_room_user.cpp:238-262 | no callback without the marker, and at most one with it |
| EndToEnd.UnpackAll | src/rtp/rtp_h264_frame_assembler.cpp:124-175 | unpacking a built aggregation payload gives every unit back, in order |
| EndToEnd.PushFragment | src/rtp/rtp_h264_frame_assembler.cpp:177-235 | each built fragment extends the rebuilt unit by its part; only the last completes it |
| EndToEnd.FeedFragments | src/rtp/rtp_h264_frame_assembler.cpp:177-235 | all fragments of a unit leave a start code and the original unit, header byte included |
| EndToEnd.FeedItem | src/rtp/rtp_h264_frame_assembler.cpp:50-122 | the packets of a single unit, an aggregation or a fragmented unit leave exactly its units |
| EndToEnd.FeedItems | src/application/app_room_user.cpp:228-267 | packet by packet nothing is dropped and nothing delivered before the marker |
| EndToEnd.DatagramShape | src/rtp/rtp_session_video.cpp:131-151 | the datagrams of a frame carry its payloads in order, marker on the last, sender's SSRC and time, and the number of packets modulo 256 |
| EndToEnd.DatagramsArePackets | src/rtp/rtp_packet.cpp:25-98 | receiving the octets is receiving the packets |
| EndToEnd.FrameDelivered | src/application/app_room_user.cpp:228-267 | one frame sent is one callback, on its marker, whose bytes split into the original units |
| EndToEnd.OneUnitCarried | src/rtp/rtp_h264_packet_builder.cpp:280-348 | any frame of one unit of at most 1372 bytes meets the conditions of these two theorems |
| EndToEnd.RunDelivered | src/application/app_room_user.cpp:228-267 | over a whole call: the assembler has room at every packet, and there is one callback a frame, in order, each with its frame's units |
| WireForm.PayloadsReadBack | src/rtp/rtp_h264_packet_builder.cpp:78-348 | a receiver by the letter of RFC 6184, which drops payloads with the forbidden or the reserved bit, gets exactly the units, for every list of plain units |
| WireForm.FirstOctets | src/rtp/rtp_h264_packet_builder.cpp:227-232 | every payload starts with an octet below 128, and with 0x18 if it is an aggregation |
| WireForm.DatagramOctets | src/rtp/rtp_session_video.cpp:131-151 | each octet of each datagram sent: 0x90, type and marker, 16-bit number, time, SSRC, extension of three words, packet count, zeros, payload |
| WireForm.WholeUpTo1372 | src/rtp/rtp_h264_packet_builder.cpp:293-312 | a unit is fragmented exactly from 1373 octets on |
| WireForm.ShareUpTo1372 | src/rtp/rtp_h264_packet_builder.cpp:314-330 | two units share a packet exactly up to 1372 octets in all, or behind a first of just that size |
| WireForm.SpareByte | src/rtp/rtp_h264_packet_builder.cpp:168-216 | a single packet is accepted while the buffer of 262144 bytes keeps a spare one |
| ReorderWindow.InsertKeepsOrder | src/rtp/rtp_session_receiver.cpp:178-220 | a sorted list takes a new packet in its place and is unchanged by a number it holds |
| ReorderWindow.RTPSessionReceiver.InsertPacket | src/rtp/rtp_session_receiver.cpp:178-220 | the iterator loop computes that insertion |
| ReorderWindow.RTPSessionReceiver.ReceiveRtpPacket | src/rtp/rtp_session_receiver.cpp:116-136 | without reordering, what arrived is parsed into the one shared packet |
| ReorderWindow.RTPSessionReceiver.ReceiveReordered | src/rtp/rtp_session_receiver.cpp:138-239 | list and returned packet after one call, in both modes |
| ReorderWindow.RunInvariant | src/rtp/rtp_session_receiver.cpp:145-238 | on every reachable state the list increases strictly, holds at most k packets and is not empty; returned plus held is what was taken, as multisets |
| ReorderWindow.BlankOnce | src/rtp/rtp_session_receiver.cpp:146-161 | the blank packet is created by the first call of a run; after any further call the list is not empty, so never again |
| ReorderWindow.EmptyCallsDoNothing | src/rtp/rtp_session_receiver.cpp:161-238 | calls that bring nothing change nothing and return nothing |
| ReorderWindow.SortsIff | src/rtp/rtp_session_receiver.cpp:138-239 | from a sorting state on, the output stays sorted exactly when no arrival is late |
| ReorderWindow.InOrderIsWithin | src/rtp/rtp_session_receiver.cpp:138-239 | packets that arrive in order are within any window |
| ReorderWindow.WindowSorts | src/rtp/rtp_session_receiver.cpp:138-239 | over a whole run the packets returned increase strictly, blank first, if and only if each was overtaken by at most k |
| ReorderWindow.WindowRestores | src/rtp/rtp_session_receiver.cpp:138-239 | then returned and held packets, in this order, are the blank one and the packets as sent |
| ReorderWindow.IncreasingUnique | src/rtp/rtp_session_receiver.cpp:138-239 | two increasing lists of the same packets are the same list |
| ReorderedDelivery.StreamIncreasing | src/rtp/rtp_session_video.cpp:131-151 | the parsed datagrams of a stream are numbered one by one, short of a 16-bit wrap |
| ReorderedDelivery.StreamIncreasingIff | src/rtp/rtp_session_video.cpp:136-137 | from any start, the parsed numbers increase if and only if they stay below the 16-bit wrap |
| ReorderedDelivery.NotRestoredPastWrap | src/rtp/rtp_session_receiver.cpp:138-239 | past the wrap no window and no order of arrival gives the stream back as sent |
| ReorderedDelivery.InOrderRestoredIff | src/rtp/rtp_session_receiver.cpp:138-239 | a stream that arrives in order is returned and held as sent if and only if its numbers neither start at 0 nor pass the wrap |
| ReorderedDelivery.ReturnedIsPrefix | src/rtp/rtp_session_receiver.cpp:138-239 | the run returns the stream as sent, short of at most k packets |
| ReorderedDelivery.PrefixDelivers | src/application/app_room_user.cpp:228-267 | a prefix of the stream that covers the first frames delivers them |
| ReorderedDelivery.ReorderedFramesDelivered | src/rtp/rtp_session_receiver.cpp:138-239 | frames sent in order whose datagrams arrive reordered within the window are delivered in order with their units, and every packet handed over finds room |
| ReorderedDelivery.PrefixHasRoom | src/rtp/rtp_h264_frame_assembler.cpp:221-234 | the assembler's copies fit for any prefix of a stream, the last frame whole or not |
| ReorderedDelivery.ConditionsMet | src/rtp/rtp_session_receiver.cpp:138-239 | for every window, k+1 one-unit frames arriving in order meet all the conditions at once |
| WebSocket.MaskedTwice | src/websocket/mongoose.cpp:4928-4931 | masking is its own inverse |
| WebSocket.XorDigit | src/websocket/mongoose.cpp:4968 | each of the eight binary digits is 1 exactly when the digits of the operands differ |
| WebSocket.MaskedDigit | src/websocket/mongoose.cpp:4928-4931 | octet i of a payload is changed exactly in the digits that octet i mod 4 of the mask has |
| WebSocket.HeaderLayout | src/websocket/mongoose.cpp:4936-4962 | the header in numbers: flags, mask bit 128, the shortest of three length forms in network order, the mask |
| WebSocket.HugeRefused | src/websocket/mongoose.cpp:4905-4934 | a frame that announces more than 2^30 bytes is never complete |
| WebSocket.HeaderParses | src/websocket/mongoose.cpp:4936-4962 | a built header parses back to its length, flags and mask |
| WebSocket.FrameLenExtends | src/websocket/mongoose.cpp:4905-4934 | bytes behind a complete frame change nothing of it |
| WebSocket.FrameLenPrefix | src/websocket/mongoose.cpp:4905-4934 | a frame is recognised as soon as all its bytes are there |
| WebSocket.FrameRoundTrip | src/websocket/mongoose.cpp:4905-4969 | for every payload up to 2^30 bytes, flags and mask, and any bytes behind, the exact frame length is returned and the payload restored |
| WebSocket.FramePrefix | src/websocket/mongoose.cpp:4905-4934 | on any proper prefix of a frame the result is 0 and no byte changes |
| WebSocketConnection.WsConnection.MkHdr | src/websocket/mongoose.cpp:4936-4962 | shortest length form, mask bit and fresh mask exactly for a client |
| WebSocketConnection.WsConnection.WsMask | src/websocket/mongoose.cpp:4964-4970 | a client masks the last bytes of the send buffer with the four before them |
| WebSocketConnection.WsConnection.WsSend | src/websocket/mongoose.cpp:4972-4981 | appends the masked frame of the data |
| WebSocketConnection.WsConnection.WsWrap | src/websocket/mongoose.cpp:5126-5138 | leaves exactly what sending the wrapped bytes would have left |
| WebSocketConnection.WsConnection.IobufDel | src/websocket/mongoose.cpp:2031-2038 | cuts the range out of the buffer, clamped to its end |
| WebSocketConnection.WsConnection.WsProcess | src/websocket/mongoose.cpp:4905-4934 | frame length, header and in-place unmasking from the running offset |
| WebSocketConnection.WsConnection.DispatchFrame | src/websocket/mongoose.cpp:5017-5042 | handler calls, pong and closing by opcode |
| WebSocketConnection.WsConnection.StripFrame | src/websocket/mongoose.cpp:5044-5063 | what of a frame stays kept, and the hand-over of a finished message |
| WebSocketConnection.WsConnection.WsCb | src/websocket/mongoose.cpp:4983-5068 | one read handles all complete frames of the buffer |
| WebSocketDelivery.TurnMore | src/websocket/mongoose.cpp:4983-5068 | a complete frame is handled alike whether or not more bytes are there |
| WebSocketDelivery.DrainMore | src/websocket/mongoose.cpp:4983-5068 | handling early what is complete changes nothing of the outcome |
| WebSocketDelivery.CutsDoNotMatter | src/websocket/mongoose.cpp:4983-5068 | any cutting of an unexposed stream into reads ends in the same connection state and events |
| WebSocketDelivery.SafeToCutIff | src/websocket/mongoose.cpp:5010-5063 | cutting never matters if and only if no turn is an empty orphan continuation with a nonzero byte behind it |
| WebSocketDelivery.CutMatters | src/websocket/mongoose.cpp:5056-5063 | a stream of four bytes for which cutting matters |
| WebSocketDelivery.TurnGarbledIff | src/websocket/mongoose.cpp:5056-5063 | one turn hands over a message of wrapped length if and only if its frame is a final continuation without payload and nothing was kept |
| WebSocketDelivery.DrainGarbledIff | src/websocket/mongoose.cpp:5010-5064 | a whole buffer does if and only if some turn over it meets such a frame |
| WebSocketDelivery.OpenCutsDoNotMatter | src/websocket/mongoose.cpp:3718-3733 | an unexposed stream that leaves the connection open comes through the event loop in the same way however it is cut |
| WebSocketDelivery.OpenCutsIff | src/websocket/mongoose.cpp:3718-3733 | every cut into two reads delivers the same if and only if no frame behind the one that starts the closing delivers anything |
| WebSocketDelivery.ClosingLosesReads | src/websocket/mongoose.cpp:5033-5037 | a message behind a close frame is handled in the same read and lost in a later one |
| WebSocketMessages.OneFrame | src/websocket/mongoose.cpp:4983-5068 | a complete frame behind the kept part is handled in one turn |
| WebSocketMessages.MiddleFrames | src/websocket/mongoose.cpp:5044-5052 | continuations pile up behind the kept flags byte, control frames pass between them |
| WebSocketMessages.FragmentedFrames | src/websocket/mongoose.cpp:5044-5063 | the fragments of a message are handed over once, joined, with the first frame's flags |
| WebSocketMessages.MessagesDelivered | src/websocket/mongoose.cpp:4983-5068 | for every stream of whole and fragmented messages with control frames anywhere, and every cutting into reads, exactly its messages are delivered, in order |
| WebSocketAnswers.Opcodes | src/websocket/mongoose.cpp:5017-5042 | data frames are 1 and 2, control frames 8, 9 and 10, and the final bit adds 128 |
| WebSocketAnswers.ByOpcode | src/websocket/mongoose.cpp:5017-5042 | the effect of one frame for each of the sixteen opcodes; a ping is answered by 0x8A and its payload |
| WebSocketAnswers.CallsAndAnswers | src/websocket/mongoose.cpp:4983-5068 | for every stream of complete frames and every cutting: exactly its handler calls, in order; what is sent is one frame for each ping, in order, with first octet 0x8A and the ping's payload, and nothing else; closing exactly if a close came |
| Glob.LaterHashSuffices | src/websocket/mongoose.cpp:3950-3957 | when the search reaches a later wildcard it never has to return to an earlier one |
| Glob.NextSound | src/websocket/mongoose.cpp:3939-3961 | every turn of the loop keeps the positions related, and a retry moves strictly forward |
| Glob.NextKeepsMatch | src/websocket/mongoose.cpp:3939-3961 | no turn loses or invents a match |
| Glob.MgMatch | src/websocket/mongoose.cpp:3936-3966 | on a subject without the wildcards of the pattern the loop terminates, with the answer of the turns that `Next` describes, and for patterns of literals, `?` and `#` finds a match exactly when there is one |
| Glob.MatchesByChar | src/websocket/mongoose.cpp:3940-3954 | what it is to match: 35 stands for any bytes, 63 for one, any other byte for itself |
| Glob.AroundHash | src/websocket/mongoose.cpp:3950-3957 | a `#` between plain parts matches exactly what starts with the one and ends, behind it, with the other |
| Glob.StarAlone | src/websocket/mongoose.cpp:3950-3957 | a `*` alone is found to match exactly what holds no slash |
| Glob.HashHidesMatch | src/websocket/mongoose.cpp:3940-3952 | for every subject with a `#` some pattern matches and is answered false |
| Glob.MatcherWorksIff | src/websocket/mongoose.cpp:3936-3966 | every pattern of literals, `?` and `#` is decided, and rightly, if and only if the subject holds no `#` |
| Glob.WildcardSubjectCycles | src/websocket/mongoose.cpp:3939-3961 | on a subject with a `#` it can run forever |
| Sha1.FoldConcat | src/websocket/mongoose.cpp:3026-3031 | hashing blocks goes on from the state reached |
| Sha1.PadShape | src/websocket/mongoose.cpp:3037-3052 | the padded message is the least whole number of blocks that starts with the message and holds nine more bytes |
| Sha1.PadInjective | src/websocket/mongoose.cpp:3037-3052 | different messages are padded differently |
| Sha1.PadOctets | src/websocket/mongoose.cpp:3037-3052 | behind the message 0x80, zeros, and the bit count as a 64-bit number in network order |
| Sha1.DigestOctets | src/websocket/mongoose.cpp:3053-3056 | the five words one after another, each in network order |
| Sha1.OneBlock | src/websocket/mongoose.cpp:3007-3059 | up to 55 bytes take one transform, from the five initial words of the standard |
| Sha1.CounterStep | src/websocket/mongoose.cpp:3021-3023 | the two-word bit counter with its carry is addition modulo 2^64 |
| Sha1.FillOfCount | src/websocket/mongoose.cpp:3024 | the low word alone gives the fill of the block buffer |
| Sha1.Sha1Context.Update | src/websocket/mongoose.cpp:3017-3035 | the context stands for the message so far, for any splitting into updates |
| Sha1.Sha1Context.Final | src/websocket/mongoose.cpp:3037-3059 | the digest is that of the fold over the padded message; the padding loop ends |
| Base64.OpenSnoc | src/websocket/mongoose.cpp:58-72 | one more byte takes the half-written form of a string to that of the longer string |
| Base64.EncodeLength | src/websocket/mongoose.cpp:85-90 | the encoded length is 4*ceil(n/3) |
| Base64.Alphabet | src/websocket/mongoose.cpp:28-38 | the 64 characters in the order of RFC 4648 |
| Base64.ReverseIff | src/websocket/mongoose.cpp:40-56 | a character has the value of its place in the alphabet, the equals sign has 64 |
| Base64.Digits64 | src/websocket/mongoose.cpp:58-72 | four characters are the digits to the base 64 of the number that three bytes spell |
| Base64.LastDigits | src/websocket/mongoose.cpp:74-83 | one or two last bytes, with zero bits and padding behind them |
| Base64.GroupDigits | src/websocket/mongoose.cpp:96-103 | when a group is refused, how many bytes it gives, and their number |
| Base64.Update | src/websocket/mongoose.cpp:58-72 | the buffer keeps the half-written form, leftover bits included, up to the returned position |
| Base64.Final | src/websocket/mongoose.cpp:74-83 | the buffer then holds the encoding and a zero |
| Base64.EncodeBytes | src/websocket/mongoose.cpp:85-90 | the one-shot encoder writes the encoding and a zero |
| Base64.StoreGroup | src/websocket/mongoose.cpp:96-103 | one group gives one, two or three bytes by its padding, or is refused |
| Base64.DecodeChars | src/websocket/mongoose.cpp:92-108 | the decoder writes the decoded bytes and a zero, or returns 0 for a bad group |
| Base64.RoundTrip | src/websocket/mongoose.cpp:28-108 | decoding an encoding gives back every byte string |
| Utf8.WellFormedIff | src/common/common_utf8.cpp:30-69 | the byte syntax the check is measured by describes exactly the encodings of scalar values other than U+FFFE |
| Utf8.ScalarIff | src/common/common_utf8.cpp:55-63 | the characters by number: up to U+10FFFF, no surrogates, not U+FFFE |
| Utf8.Rfc3629Examples | src/common/common_utf8.cpp:30-69 | the encodings of the standard's examples, and the one mark refused |
| Utf8.TopBit | src/common/common_utf8.cpp:40-54 | the sliding top bit reads the next length bit of the first byte, in 32-bit arithmetic |
| Utf8.Verdict | src/common/common_utf8.cpp:55-63 | the range test accepts exactly the well-formed characters: no overlong form, no surrogate, nothing past U+10FFFF, no U+FFFE |
| Utf8.ReadChar | src/common/common_utf8.cpp:38-65 | one turn accepts exactly a well-formed character and moves behind it |
| Utf8.IsUtf8Chars | src/common/common_utf8.cpp:30-69 | true exactly when the bytes before the zero are well-formed without U+FFFE; nothing behind the zero is read |
| Utf8.IsUtf8Str | src/common/common_utf8.cpp:71-142 | true exactly when every first byte is followed by as many continuations as it announces |
| Utf8.WellFormedIsGrouped | src/common/common_utf8.cpp:71-142 | the second check accepts whatever the first does |
| Utf8.GroupedIsLax | src/common/common_utf8.cpp:92-99 | and more: byte 255 as the first of five |
| Utf8.GroupByFirst | src/common/common_utf8.cpp:76-120 | how many continuation bytes are asked for behind each of the 256 first bytes |
| Utf8.SecondCheckIff | src/common/common_utf8.cpp:71-142 | what it accepts is well-formed if and only if a scan over bytes and neighbours finds nothing it overlooks |
| ExpGolomb.UeReadsBack | src/codec/codec_utils.cpp:264-290 | at a code for k the reader finds k and stops behind the code |
| ExpGolomb.UeExact | src/codec/codec_utils.cpp:264-290 | conversely what it consumed is the code of what it returned |
| ExpGolomb.UnmappedMapped | src/codec/codec_utils.cpp:292-302 | the signed mapping is undone |
| ExpGolomb.SignsAlternate | src/codec/codec_utils.cpp:292-302 | code numbers 2n-1 and 2n stand for n and -n |
| ExpGolomb.FirstCodes | src/codec/codec_utils.cpp:264-290 | the first four codes bit by bit |
| ExpGolomb.BitsSpell | src/codec/codec_utils.cpp:304-317 | the bits of a buffer stand for the number that its octets spell |
| ExpGolomb.U | src/codec/codec_utils.cpp:304-317 | the fixed-width number at the cursor, modulo 2^64 |
| ExpGolomb.Ue | src/codec/codec_utils.cpp:264-290 | the unsigned code at the cursor and the cursor behind it |
| ExpGolomb.Se | src/codec/codec_utils.cpp:292-302 | the signed code at the cursor; the bits consumed are the code of the result |
| ExpGolomb.CodesReadBack | src/codec/codec_utils.cpp:264-317 | any list of codes written at any bit offset is read back, cursor behind the last |
| Json.PutKeepsSorted | src/common/common_json.cpp:826 | storing under a key keeps the members in key order |
| Json.PutGets | src/common/common_json.cpp:826 | afterwards that key has the value and every other what it had |
| Json.PushKeepsArrayKeys | src/common/common_json.cpp:1030-1040 | pushing onto an array with the keys 0 to n-1 gives one with the keys 0 to n |
| Json.PushedArray | src/common/common_json.cpp:1030-1040 | every array built by pushing has the keys 0 to n-1 and holds value i under i |
| Json.ArrayOrderIff | src/common/common_json.cpp:1030-1040 | the key at each position is its number if and only if there are at most ten elements |
| Json.DigitsValue | src/common/common_utils.cpp:180-185 | the decimal text of a number stands for that number |
| Json.DecimalPlaces | src/common/common_utils.cpp:180-185 | a figure behind a number multiplies it by ten and adds its own value |
| Json.NoLeadingZero | src/common/common_utils.cpp:180-185 | no number but zero is printed with a leading 0 |
| Json.LessIff | src/common/common_json.cpp:826 | keys are ordered by the first character that differs, a proper prefix first |
| JsonText.StringReplace | src/common/common_utils.cpp:149-168 | the loop rewrites in place to the leftmost non-overlapping replacement, the replacement itself not searched again |
| JsonText.ReplaceCodes | src/common/common_json.cpp:1042-1052 | each replacement codes one character everywhere and nothing that is coded already |
| JsonText.EscapeString | src/common/common_json.cpp:1042-1052 | the chain codes each character by itself |
| JsonText.UnescapeString | src/common/common_json.cpp:1054-1064 | the chain of replacements of the reader |
| JsonText.EscapedByChar | src/common/common_json.cpp:1042-1052 | how each character is printed, anywhere in a string: the eight codes written out |
| JsonText.UnescapedByCode | src/common/common_json.cpp:1054-1064 | what each of the eight codes is read as |
| JsonText.GentleIff | src/common/common_json.cpp:1054-1064 | the condition of `UnescapeUndoesIff`, by positions and letters |
| JsonText.ReplaceDecodes | src/common/common_json.cpp:1054-1064 | where no bare letter follows a backslash, one replacement undoes one coding |
| JsonText.UnescapeUndoesIff | src/common/common_json.cpp:1042-1064 | unescaping undoes escaping exactly on strings with no backslash right before b, f, n, r or t |
| JsonText.PlainIsGentle | src/common/common_json.cpp:1042-1064 | strings without backslashes are among them |
| JsonText.CodeIsNotGentle | src/common/common_json.cpp:1042-1064 | the two characters backslash and n are not |
| JsonObjects.ReadWhitespace | src/common/common_json.cpp:635-646 | the position behind the blanks |
| JsonObjects.ReadDelimiterAt | src/common/common_json.cpp:648-661 | one character between blanks |
| JsonObjects.ReadString | src/common/common_json.cpp:663-698 | the unescaped text up to the first quote that no backslash precedes |
| JsonObjects.ReadNumberAt | src/common/common_json.cpp:700-739 | the run of digits and points, an integer unless there is a point |
| JsonObjects.ReadWordAt | src/common/common_json.cpp:741-778 | a wanted word in any mixture of cases |
| JsonObjects.JsonObject.Push | src/common/common_json.cpp:1030-1040 | stores under the decimal size, for arrays only |
| JsonObjects.JsonObject.ReadJsonKeyValue | src/common/common_json.cpp:955-1028 | the value read off the front, and the position behind it |
| JsonObjects.JsonObject.ReadObject | src/common/common_json.cpp:780-848 | members stored one by one, also those before a failure |
| JsonObjects.JsonObject.ReadArray | src/common/common_json.cpp:850-953 | elements stored one by one under their numbers |
| JsonObjects.JsonObject.ReadFromString | src/common/common_json.cpp:412-438 | the object after reading a text, earlier members kept |
| JsonObjects.JsonObject.WriteToString | src/common/common_json.cpp:440-544 | the printed form, failure exactly when something is undefined, and the strings escaped in place up to there |
| JsonWriter.TouchedUntil | src/common/common_json.cpp:440-544 | a failed printing leaves the strings escaped up to the member it fails at, and nothing behind it changed |
| JsonWriter.SecondWriteIff | src/common/common_json.cpp:511-515 | a second printing gives the same text if and only if no stored string, at any depth, holds a character that is printed with a backslash |
| JsonWriter.EscapedSameIff | src/common/common_json.cpp:1042-1052 | escaping leaves a string alone if and only if it holds no such character |
| JsonRoundTrip.StopsAtQuoteIff | src/common/common_json.cpp:663-698 | the reader stops at the right quote exactly if the string does not end in a backslash |
| JsonRoundTrip.TextReadsBackIff | src/common/common_json.cpp:663-698 | the exact condition for a printed string to come back |
| JsonRoundTrip.KeyReadsBackIff | src/common/common_json.cpp:460-463 | the exact condition for a key, which is printed unescaped |
| JsonRoundTrip.IntReadsBackIff | src/common/common_json.cpp:700-739 | an integer comes back exactly if it is not negative and below 2^63 |
| JsonRoundTrip.ValueReads | src/common/common_json.cpp:955-1028 | every legible value comes back as described, and what follows it is left |
| JsonRoundTrip.MembersRead | src/common/common_json.cpp:780-953 | so do all members of an object and all elements of an array |
| JsonRoundTrip.LoadInOrder | src/common/common_json.cpp:1030-1040 | with keys in map order, or at most ten elements, each member comes back in its place |
| JsonRoundTrip.RereadIsSameIff | src/common/common_json.cpp:440-544 | what comes back is the tree exactly if it holds no null and only strings that come back |
| JsonRoundTrip.PrintThenParse | src/common/common_json.cpp:412-544 | the text of a nested tree is read into a fresh object with the described result, and it is the same object if and only if the tree is preserved |
| JsonRoundTrip.ElementsComeBack | src/common/common_json.cpp:1030-1040 | for arrays of any size, element i comes back as the i-th in key order |
| JsonRoundTrip.TenBecomesTwo | src/common/common_json.cpp:1030-1040 | for every array of eleven elements or more, what was stored under 10 comes back under 2 |
| JsonBlanks.BlanksBeforeValue | src/common/common_json.cpp:635-646 | any spaces, tabs, returns and newlines in front of a value make no difference |
| JsonBlanks.OnlyBlanksSkipped | src/common/common_json.cpp:635-646 | and no other character is skipped |
| JsonBlanks.BlanksAroundDelimiter | src/common/common_json.cpp:648-661 | a delimiter is found and passed with the blanks on both sides |
| JsonBlanks.SpacedReads | src/common/common_json.cpp:780-1028 | a legible value with blanks of any kind and number in front of keys and values and around colons and commas, at any depth, is read as the dense one |
| JsonBlanks.NoGaps | src/common/common_json.cpp:440-544 | without blanks that text is the printed one |
| JsonBlanks.SpacedText | src/common/common_json.cpp:412-438 | a whole text with such blanks, and with blanks in front and anything behind, gives the object that the printed text gives |
| JsonBlanks.ShowWords | src/common/common_json.cpp:466-485 | the texts of null, true, false and the integers |
| JsonBlanks.ShowArrayByChar | src/common/common_json.cpp:440-544 | brackets and comma of a printed array |
| JsonBlanks.ShowObjectByChar | src/common/common_json.cpp:440-544 | braces, quotes, colon and comma of a printed object |
| JsonBlanks.EmptyReadsIff | src/common/common_json.cpp:793-797 | an empty object or array is read exactly if there is no blank inside |
| JsonBlanks.HeadRefused | src/common/common_json.cpp:967-1026 | a value starts with one of the listed characters or is refused |
| JsonBlanks.WordReadsIff | src/common/common_json.cpp:741-778 | a word is accepted exactly if each letter is the wanted one in either case |
| JsonBlanks.NumberReads | src/common/common_json.cpp:700-739 | digits and points: a `double` exactly if there is a point, else an integer that stops at 2^63-1 |
| JsonBlanks.ColonNeeded | src/common/common_json.cpp:810-817 | behind a key anything but a colon is refused |
| JsonBlanks.KeyIsString | src/common/common_json.cpp:805-808 | a key that is not a string is refused |
| JsonBlanks.BehindValue | src/common/common_json.cpp:826-844 | behind a value the closing character or a comma, anything else is refused; behind a comma the closing character is taken |

## Left out

- Sockets, `select`, NAT pinholes, threads and mutexes: a datagram is a byte sequence handed in, and the transmitter a predicate on datagram numbers.
- Pointers into the caller's frame: NAL units are values, so aliasing of the frame buffer is not captured.
- AAC packets and the audio session: one header and one copy.
- `avc_find_sps_pps_idr`, `count_avc_key_frames`, `avc_read_nalu`: the same loop as the scanners modelled.
- `h264_decode_sps`, and `de_emulation_prevention`, which tests bytes it has just shifted and so does not compute the standard's removal.
- RtpPacket.RTPPacket.Parse: requires that a datagram holds the extension it announces, because the code reads it without a length check.
- ReorderWindow.RTPSessionReceiver.ReceiveRtpPacket: the same, as it parses what arrived.
- ReorderWindow.RTPSessionReceiver.ReceiveReordered: the same, as it parses what arrived.
- FrameAssembler.RTPH264FrameAssembler.PushPacket: requires that what is held and the payload fit the buffer, because the code copies without a check; `EndToEnd.RunDelivered` and `ReorderedDelivery.ReorderedFramesDelivered` prove it for whatever the sender builds.
- FrameAssembler.RTPH264FrameAssembler.GetFuaFrame: the same for the fragments it copies.
- RoomUser.RoomUser.ReceiveVideo: the same, and that the payload length has not wrapped, which `RtpPacket.PayloadInsideIff` characterises.
- ExpGolomb.Ue: requires a whole code with at most 30 leading zeros in the buffer, because past it the code reads on and shifts by more than an `int` holds.
- ExpGolomb.Se: requires the same.
- WebSocketConnection.WsConnection.StripFrame: of a message with wrapped length only the flags are recorded, because its bytes are not those of the buffer.
- WebSocketDelivery.SafeToCutIff: compares such messages by their flags, for the same reason.
- ReorderedDelivery.ReturnedIsPrefix: requires numbers from 1 to below the 16-bit wrap, because outside the stream is not restored (`ReorderedDelivery.InOrderRestoredIff`, `ReorderedDelivery.NotRestoredPastWrap`).
- ReorderedDelivery.ReorderedFramesDelivered: requires the same, for the same reason.
- Glob.MgMatch: of patterns with `*` what is found is proved for `*` alone (`Glob.StarAlone`) and otherwise only tied to the turns of the loop, because its rule about `/` depends on the run; a subject that holds a wildcard of the pattern is excluded, because the loop need not end on it; captures are not modelled.
- The SHA-1 block transform and HMAC: the transform is a parameter.
- The HTTP upgrade around the WebSocket connection and the accept key in it: formatting and I/O.
- Allocation failures and chunk sizes in `mg_iobuf_add`; an allocation of negative size when the transmitter reports an error on the first reordered call.
- JsonObjects.JsonObject.WriteToString: requires that there are no `double` values, because how they are printed is floating-point formatting; the reader keeps their text.
- JSON integers of different widths: one case, as their type tag is not printed.
- Texts of 2^32 bytes and more, where the parser's 32-bit position would wrap.
- Meeting rooms, port management, message queues and logging.
