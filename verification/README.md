# Media receive path and test framework: a Dafny model

This project models two parts of the repository and proves what they promise.

**The receive path of the RTSP client.** Three machines stand on one another. A poll function finds
RTP and RTCP frames in a TCP stream that also carries RTSP text (section 10.12 of RFC 2326). A
reassembly loop turns RTP payloads of H.264 (section 5.8 of RFC 6184) and H.265 (section 4.4.3 of
RFC 7798) into an Annex-B byte stream in the caller's buffer. Loops over partial reads and writes
exchange requests, responses and session descriptions, which a line cursor and a parser with
sections and a current media entry take apart.

**The algorithms of the test framework in `gtest/`.** A backtracking matcher for simple regular
expressions, three ways to find primes, test filters, a registry of test cases with in-place
shuffling of index vectors, selection of shards and a whole run, and the conversion of texts to
UTF-8 and XML.

## Layout

| files | what they model |
|---|---|
| `Common.dfy` | shared types and facts about sequences |
| `HeaderLines.dfy`, `Interleaved.dfy`, `Resynchronisation.dfy`, `Pending.dfy`, `FrameSending.dfy`, `Transmitter.dfy` | the demultiplexer: reading a header, the decoder as a function of the byte queue, streams of frames and text, what stays pending, frames on the wire, the class |
| `NaluTypes.dfy`, `Reassembly.dfy`, `Truncation.dfy`, `MediaRuns.dfy`, `ByteStream.dfy`, `MediaClient.dfy` | NAL unit headers and dispatch, the reassembly as a function of the packet queue, units and the size of the buffer, runs of arrivals and calls, a receiver of their output, the classes over buffers |
| `Sending.dfy`, `Receiving.dfy`, `CutLines.dfy` | the loops over a schedule of outcomes of `write` and `read`, and what reads that do not block do to a header |
| `LineCursor.dfy`, `SdpData.dfy` | the line cursor and the parser of session descriptions |
| `CharClasses.dfy`, `SimpleRegex.dfy`, `Primes.dfy` | character classes, the matcher and the prime tables |
| `TestFilter.dfy`, `Shuffling.dfy`, `RunOrders.dfy`, `Sharding.dfy`, `TestCases.dfy`, `TestRegistry.dfy`, `TestPrograms.dfy` | filters, Fisher-Yates and index vectors, the order of an iteration, shards, test cases, the registry and its runs, whole test programs |
| `Utf8.dfy`, `WideStrings.dfy`, `XmlOutput.dfy` | text output |

Code that changes state is a class or a method with loops, proved against functions on values; the
theorems are about those functions. A byte queue stands for a socket, a finite schedule of outcomes
for the operating system, a queue of payloads for the RTP library.

## What the proofs found

Where the code does not do what its documentation or a reader expects, the code is modelled as it
is. These properties fail for some inputs; the theorems named say for exactly which.

- Text is skipped by one or two bytes, so a run of text that ends in an odd number of R's and dollar
  signs swallows the dollar sign of the next frame (`SyncIff`; `FrameLost` is an input).
- The array for the text of a response has 8192 bytes, and the line loop behind its first four is given
  8192 more: a response has room if and only if it has at most 8189 bytes (`ResponseFitsIff`,
  `CommandFitsIff`; `ResponseTooLong` is an input). `PollSocket` follows the specification exactly if
  every text has room, and nothing is said of what the code does otherwise.
- Only errors of `send` are looked at, not how much it takes: the frames arrive if and only if every
  send takes all its bytes and the last payload is not empty (`ArrivesIff`; `PartialSend` is an input).
- A last frame without payload stays in the decoder until another byte arrives (`AllDeliveredIff`,
  `WriteReadRoundTrip`).
- A call that finds only some packets of a unit returns null and has taken them, and the next call
  then succeeds with a body that has lost its head (`PartOfUnit`). A run yields exactly the units if
  and only if every call finds no packet or a whole unit that fits (`ExactIffReady`).
- The flag for the parameter sets is cleared before a packet has been read: they are in some result
  if and only if the first call finds a whole unit (`DeliveredIff`), and otherwise in none
  (`PrefixLost`); at most once is all that holds of every run (`AtMostOnce`).
- A unit that is larger than the buffer comes out shorter and without an error, and the next call takes
  the fragments it leaves for a unit (`UnitExactIff`, `FragmentsFitIff`, `TruncatedUnit`).
- A full match with a pattern that ends in an escaped dollar sign is not anchored at the end
  (`FullMatchIff`; `FullMatchOfPrefix` is an input).
- The const accessor of test cases ignores the index vector that it looks up (`AccessorsAgreeIff`).
- `GetNextPrime(-1)` differs between the tables (`HybridPrimeTable.GetNextPrime`).
- Where `char` is signed, text beyond ASCII is removed from the XML report (`OnlyValidIff`), and a
  carriage return in a CDATA section comes back as a line feed (`CDataLineEnds`).

These hold of every input that reaches the code.

- A frame whose channel byte is T is accepted and flagged RTCP (`FrameTurns`, with `GoodPacket`).
- The text given to the response callback starts with the four bytes that were peeked although only
  two were taken, so SP stands in it twice (`ResponseTurn`).
- `ReadLine` counts the limit, not the bytes stored, when it stops at the limit (`LineFrom`, `LineCount`).
- `RegexLine` leaves the line feed of a CRLF in front of the next line, and prefers a CRLF to a nearer
  line feed (`CrLfText`).
- Connection data are read from the o= line (`Step` in `SdpData.dfy` follows the code).

Two hazards of the socket loops do not arise in the client. It leaves its sockets blocking (the calls
that set `O_NONBLOCK` are commented out, `myRtspClient/rtspClient.cpp:1067-1069` and `1122-1124`);
on one that does not block, the rest of a cut line can look like the blank line (`FramingIff` gives the
exact condition, `CutLineLooksBlank` an input). And POSIX lets no `write` of a positive size return 0;
if it did, a byte could go out twice (`ZeroWriteRepeats`, the reason for the hypothesis of `ExactlyOnce`).

## Model

| member | source | states |
|---|---|---|
| `HeaderLines.LineReadStops` | myRtspClient/utils.cpp:21-47 | a line read stops behind the first line feed, and without one exactly at the limit less one |
| `HeaderLines.HeaderReadStep` | myRtspClient/rtspClient.cpp:1459-1482 | what one line does to the header loop: it ends the header, uses up the limit, or leaves the loop to the rest of the stream with the limit reduced by the line |
| `HeaderLines.HeaderReadPrefix` | myRtspClient/myTCPTransmitter.cpp:107-132 | more bytes behind a complete header do not change how much of it is read |
| `HeaderLines.HeaderReadOfBlock` | myRtspClient/rtspClient.cpp:1454-1483 | for a block that ends at its first blank line, whatever follows it, the loop takes the smaller of the block's length and the limit less one; blank lines are found by position, independently of the line loop |
| `HeaderLines.HeaderWaitsIff` | myRtspClient/rtspClient.cpp:1454-1483 | the header loop waits for more bytes exactly while no position of the stream holds a blank line and fewer bytes are there than the limit less one |
| `Interleaved.Poll` | myRtspClient/myTCPTransmitter.cpp:57-180 | what a call leaves is a suffix of the queue, and a call that delivers a packet shrinks the pair of queue length and state rank |
| `Interleaved.CommandFitsIff` | myRtspClient/myTCPTransmitter.cpp:97-131 | the callback text and its NUL have room in the array of 8192 bytes if and only if the header behind the two bytes skipped ends within 8187 bytes |
| `Interleaved.NextTurnPrefix` | myRtspClient/myTCPTransmitter.cpp:67-179 | a turn that can be taken is the same turn when more bytes have arrived |
| `Interleaved.DrainResumes` | myRtspClient/myTCPTransmitter.cpp:57-180 | decoding interrupted after any prefix and resumed with the rest equals decoding all at once |
| `Interleaved.PollIsPartOfDrain` | myRtspClient/myTCPTransmitter.cpp:57-203 | one call does a prefix of the work of the one-shot decode, whatever arrives later, and leaves decoder and queue so that the rest of the work follows |
| `Interleaved.PollManyIsDrain` | myRtspClient/myTCPTransmitter.cpp:57-203 | calls until one returns without a packet have the outputs, the decoder and the queue of the one-shot decode |
| `Interleaved.PollDeliversAtMostOne` | myRtspClient/myTCPTransmitter.cpp:168-199 | a call delivers at most one packet, as the last thing it does |
| `Interleaved.BytesConserved` | myRtspClient/myTCPTransmitter.cpp:57-180 | over any interleaving of arrivals and calls, consumed bytes followed by pending ones are the bytes that arrived, in order |
| `Interleaved.ArrivalIndependence` | myRtspClient/myTCPTransmitter.cpp:57-203 | over any interleaving of arrivals and calls, what was delivered followed by the decode of what is pending and to come is the one-shot decode of the whole stream |
| `Pending.WaitIff` | myRtspClient/myTCPTransmitter.cpp:67-179 | the next turn waits exactly on a marker alone, a marker with 0, 1 or T and fewer than four bytes, a response of which no blank line has come, or fewer bytes of a payload than its length, said by bytes and positions |
| `Pending.TakesOf` | myRtspClient/myTCPTransmitter.cpp:67-179 | on all other bytes: how many the turn takes and what state it leaves, by the bytes |
| `Pending.DrainLeaves` | myRtspClient/myTCPTransmitter.cpp:57-180 | what the decode of a whole stream leaves is an end of the stream; it is empty, or the decoder is stuck on it and waits |
| `Pending.PollLeaves` | myRtspClient/myTCPTransmitter.cpp:57-203 | one call waits only if it leaves something that the decoder is stuck on; otherwise it has delivered a packet or leaves nothing |
| `Pending.TextStuck` | myRtspClient/myTCPTransmitter.cpp:75-87 | a run of text leaves exactly what follows from the first place that the decoder looks at and is stuck on |
| `Pending.TextPendingIff` | myRtspClient/myTCPTransmitter.cpp:75-87 | text leaves something if and only if one of the places behind an even number of markers has a marker alone, or one with 0, 1 or T and fewer than four bytes; otherwise nothing is left |
| `Pending.ResponsePending` | myRtspClient/myTCPTransmitter.cpp:88-140 | with a callback armed, a response that is incomplete by position is left whole behind any text, and nothing is delivered |
| `Resynchronisation.LeavesHalfIffOdd` | myRtspClient/myTCPTransmitter.cpp:75-87 | skipping ones and twos through any run of bytes leaves a half-read pair exactly if the run ends in an odd number of markers, R or dollar sign |
| `Resynchronisation.SkipText` | myRtspClient/myTCPTransmitter.cpp:75-146 | a run in which no pair starts a frame and that keeps step, in front of anything, delivers nothing and takes nothing of what follows; with a callback armed, if no pair starts a response either |
| `Resynchronisation.SkipTextAndOne` | myRtspClient/myTCPTransmitter.cpp:83-87 | a run that does not keep step takes exactly one byte of what follows along, unless that makes a dollar sign the start of a frame |
| `Resynchronisation.TextOnly` | myRtspClient/myTCPTransmitter.cpp:69-147 | a run in which no pair starts a frame delivers nothing, in step or not |
| `Resynchronisation.FrameTurns` | myRtspClient/myTCPTransmitter.cpp:148-170 | a well-formed frame delivers its payload, flagged RTP exactly on channel 0, unless it is empty and nothing follows |
| `Resynchronisation.Resync` | myRtspClient/myTCPTransmitter.cpp:57-200 | from a frame start and with no callback armed, any mix of frames and text runs that stays in step delivers exactly the payloads in order, except a last empty one |
| `Resynchronisation.AllDeliveredIff` | myRtspClient/myTCPTransmitter.cpp:62-170 | such a stream delivers all its frames if and only if it does not end in an empty frame |
| `Resynchronisation.SyncIff` | myRtspClient/myTCPTransmitter.cpp:75-170 | after any run in which no pair that the decoder looks at starts a frame, dollar signs or not, the next frame is all that is delivered if and only if the run does not end in an odd number of markers |
| `Resynchronisation.FrameLost` | myRtspClient/myTCPTransmitter.cpp:83-87 | a concrete stream: one R in front of a frame loses the frame |
| `Resynchronisation.ResponseFitsIff` | myRtspClient/myTCPTransmitter.cpp:97-131 | with a callback armed, a response that starts with RTSP and ends at its first blank line has room, with SP doubled and a NUL, if and only if it has at most 8189 bytes |
| `Resynchronisation.ResponseTooLong` | myRtspClient/myTCPTransmitter.cpp:102-108 | a concrete response of 8190 bytes has no room |
| `Resynchronisation.ResponseTurn` | myRtspClient/myTCPTransmitter.cpp:88-140 | one that has room is taken whole, given to the callback with SP doubled in front, and disarms it |
| `Resynchronisation.ArmedStream` | myRtspClient/myTCPTransmitter.cpp:57-200 | frames and text that keeps step and in which no pair the decoder looks at starts RTSP, one response that has room, then frames and text in step: all frames are delivered and the callback runs once, in its place |
| `Resynchronisation.LengthRoundTrip` | myRtspClient/myTCPTransmitter.cpp:234 | the 16-bit length survives the split into two bytes and the join at line 152 |
| `Resynchronisation.SentIsEncoded` | myRtspClient/myTCPTransmitter.cpp:232-241 | what the writer sends for a list of payloads is a stream of channel-1 frames that stays in step |
| `Resynchronisation.WriteReadRoundTrip` | myRtspClient/myTCPTransmitter.cpp:205-255 | decoding what was written for any payloads of at most 65535 bytes gives the payloads in order, all flagged RTCP, if and only if there are none or the last is not empty |
| `FrameSending.WireIff` | myRtspClient/myTCPTransmitter.cpp:232-241 | over any schedule of sends that fail or take any part of their bytes: the wire to one destination never gets more bytes than the frames have, and all frames go out to a destination that is kept if and only if every send takes all its bytes |
| `FrameSending.ArrivesIff` | myRtspClient/myTCPTransmitter.cpp:205-255 | over any such schedule a decoder at the other end delivers exactly the payloads, in order, if and only if every send took all its bytes and the last payload is not empty |
| `FrameSending.PartialSend` | myRtspClient/myTCPTransmitter.cpp:238-240 | a concrete schedule, with any payloads of two bytes and one: a send that takes one byte of two goes unnoticed, and the next frame is delivered as part of this one |
| `Transmitter.MyTcpTransmitter.PollSocket` | myRtspClient/myTCPTransmitter.cpp:43-203 | the loop over the fields, the peek buffer and the socket has the decoder state, the queue and the packet list that Interleaved.Poll gives, if every callback text has room, and reports an overrun exactly if one has none; it waits only for bytes that are missing behind the pending ones, and otherwise leaves nothing or has delivered a packet |
| `Transmitter.MyTcpTransmitter.TakeTurn` | myRtspClient/myTCPTransmitter.cpp:67-179 | one pass of the loop, by the receive state, has the effect of Interleaved.NextTurn on all fields and the queue, or reports that a text has no room |
| `Transmitter.MyTcpTransmitter.ReceiveHeader` | myRtspClient/myTCPTransmitter.cpp:69-158 | the frame-start state: peeks, skips of one and two bytes, the RTSP branch and the four-byte header |
| `Transmitter.MyTcpTransmitter.ReceiveCommand` | myRtspClient/myTCPTransmitter.cpp:88-147 | the RTSP branch with and without a callback, with the array of 8192 bytes that holds the text |
| `Transmitter.MyTcpTransmitter.ReadCommand` | myRtspClient/myTCPTransmitter.cpp:107-132 | the line loop over the array takes from the queue exactly the bytes that HeaderLines.HeaderRead counts and stores them behind the first four with a NUL, if and only if there is room for all of that |
| `Transmitter.MyTcpTransmitter.ReadCommandLine` | myRtspClient/myTCPTransmitter.cpp:108-128 | one line of the loop: where it goes in the array, what ReadLine returns, and the test for a blank line made on the array |
| `Transmitter.MyTcpTransmitter.constructor` | myRtspClient/include/myTCPTransmitter.h:52 | a new transmitter is at a frame start, with no callback, packet or destination |
| `Transmitter.MyTcpTransmitter.SetCallback` | myRtspClient/include/myTCPTransmitter.h:66 | arms or disarms the callback and changes nothing else of the decoder |
| `Transmitter.MyTcpTransmitter.SendRtpRtcpData` | myRtspClient/myTCPTransmitter.cpp:205-255 | the three error cases change nothing; otherwise every destination gets what its two sends take of one frame, is forgotten if and only if one of them fails, and those left are different ones of those before |
| `Transmitter.MyTcpTransmitter.SendEach` | myRtspClient/myTCPTransmitter.cpp:205-255 | payload after payload: every destination has got the frames that FrameSending.SendFrames gives and is left exactly if no send failed; what a new one has got decodes to just the payloads if and only if nothing disturbed them |
| `NaluTypes.GuardsNeverFire` | myRtspClient/nalu_types_h264.cpp:261-293 | for a packet that the table dispatches to FU-A the error guards of its header functions never fire, and F, NRI and type are those of RFC 6184 section 5.8 |
| `NaluTypes.ViewOfFragment` | myRtspClient/nalu_types_h264.cpp:208-311 | for H.264 and H.265, any header and flags, a fragment is read back with its start and end flag, the original header of the unit, and the skip that leaves just the fragment |
| `NaluTypes.ViewOfSingle` | myRtspClient/nalu_types_h265.cpp:119-230 | a unit sent in one packet is read back as start and end, with its own header for every header value |
| `NaluTypes.ViewIff` | myRtspClient/nalu_types_h264.cpp:41-76 | a packet is known exactly if its type number is that of a single unit, an aggregation packet or a fragment in its mode; the first two come out as start and end with their own header |
| `Reassembly.CopiedWhole` | myRtspClient/nalu_types_h264.cpp:123-150 | they are copied behind 00 00 00 01, octet by octet |
| `Reassembly.TailFragments` | myRtspClient/rtspClient.cpp:1828-1858 | the fragments behind the first append the rest of the body and stop the loop on the last one |
| `Reassembly.FragmentsRoundTrip` | myRtspClient/rtspClient.cpp:1808-1861 | for any header, any partition of the body into fragments and any packets behind them, a unit that fits comes out as start code, header and body, and nothing of the rest is taken |
| `Reassembly.RoundTrip` | myRtspClient/rtspClient.cpp:1808-1861 | the same for a unit sent whole or cut |
| `Reassembly.FragmentsTruncated` | myRtspClient/rtspClient.cpp:1840-1843 | a cut unit without that room comes out shorter than it is, and no error is reported |
| `Reassembly.FragmentsFitIff` | myRtspClient/rtspClient.cpp:1840-1843 | of any cut unit the whole comes out if and only if there is room for its first packet and then, unless the other parts are empty, for these and one more packet header |
| `Reassembly.CutFitsByRoom` | myRtspClient/rtspClient.cpp:1840-1843 | with a non-empty last part that condition is that the unit, its start code and the headers of the last packet fit |
| `Truncation.UnitExactIff` | myRtspClient/rtspClient.cpp:1840-1858 | any unit, whole or cut, comes out whole with the queue left at the packets behind it if and only if it fits; the call succeeds either way |
| `Truncation.TruncatedUnit` | myRtspClient/rtspClient.cpp:1840-1843 | a cut unit that does not fit: the call succeeds with the fragments before some j-th one, which it drops, and the next call succeeds with those behind it as a unit of their own, without start code and header |
| `Truncation.DryOrSame` | myRtspClient/rtspClient.cpp:1828-1858 | with fewer packets queued the loop either takes them all and fails, or does exactly what it does when more follow |
| `Reassembly.Accounting` | myRtspClient/rtspClient.cpp:1826-1858 | for any packets, well-formed or not: the output is what was there and one chunk per copied packet, the size is the sum of packet lengths less skipped headers plus start codes with headers, at most one more packet is taken, and the size is at most the larger of the prefix and the limit plus 4 |
| `MediaRuns.QueueInOrder` | myRtspClient/rtspClient.cpp:1828 | over any packets, arrivals and calls the queue at the end is a suffix of the packets that were queued and have arrived: none is taken twice, skipped or reordered |
| `MediaRuns.SomeFragments` | myRtspClient/rtspClient.cpp:1828-1832 | when only some fragments of a unit are queued the loop takes them all, finds no packet and fails, with what they carried in the discarded buffer |
| `MediaRuns.PartOfUnit` | myRtspClient/rtspClient.cpp:1828-1858 | a queue with the first k packets of a cut unit: the call succeeds if and only if k is all of them; otherwise it has taken those k, and with the others queued the next call succeeds with the rest of the body and neither start code nor header |
| `MediaRuns.HoldsEndIff` | myRtspClient/nalu_types_h264.cpp:261-293 | a queue that starts at a unit of the sender's stream holds a packet marked as an end if and only if it holds all packets of that unit |
| `MediaRuns.InStep` | myRtspClient/rtspClient.cpp:1826-1860 | the loop on any beginning of a stream whose first unit fits: that unit whole with the packets behind it left, or a failure that leaves no packet and has written something if there was one |
| `MediaRuns.OutOfStep` | myRtspClient/rtspClient.cpp:1840-1843 | and if the first unit does not fit: such a failure, a success that is too short, or one that leaves fragments without a body behind |
| `MediaRuns.LeftoverNotExact` | myRtspClient/rtspClient.cpp:1828-1858 | with such fragments in front no later calls give exactly the units behind them |
| `MediaRuns.ReadyRun` | myRtspClient/rtspClient.cpp:1808-1861 | over any run of arrivals and calls in which each call finds no packet or a whole unit that fits, the successful calls yield the units in order, as many as calls found a packet, and the packets of all others are left or still to come |
| `MediaRuns.RunWrites` | myRtspClient/rtspClient.cpp:1856-1857 | over any packets, arrivals and calls, what the calls write and what the packets left behind carry is no more than the packets carry that were queued or arrived |
| `MediaRuns.WasteLoses` | myRtspClient/rtspClient.cpp:1828-1832 | a call that returns null after it has written something writes octets that no successful call of the run returns |
| `MediaRuns.ExactIffReady` | myRtspClient/rtspClient.cpp:1808-1861 | over any run of arrivals and calls on any stream of units, of any sizes, the successful calls yield exactly the first n units for some n, with the packets of all others left or to come, if and only if every call finds no packet or all packets of a unit that fits |
| `MediaRuns.AtMostOnce` | myRtspClient/nalu_types_h264.cpp:161-183 | over any packets, arrivals and calls the parameter sets are inserted at most once, and never when they do not decode |
| `MediaRuns.PrefixInFront` | myRtspClient/rtspClient.cpp:1815-1820 | they stand at the front of what the call writes, and the call uses them up even if it returns null, as it does when no packet is there |
| `MediaRuns.DeliveredIff` | myRtspClient/nalu_types_h264.cpp:180 | when the sets are due, decode and fit in front of the first unit, some successful call returns them if and only if the first call of the run finds all packets of a unit |
| `MediaRuns.SetsForgotten` | myRtspClient/rtspClient.cpp:1815 | once they are no longer due, no result of any run depends on what the sets are |
| `MediaRuns.PrefixLost` | myRtspClient/nalu_types_h264.cpp:180 | if the first call does not find a whole unit, all results of the run are those of a session whose sets are others and were never due |
| `MediaRuns.WholeRun` | myRtspClient/rtspClient.cpp:1808-1861 | a run with the sets due in which every call is ready and the first finds a unit: the first success is the sets and the first unit, the others are the next units, and put together they are the sets and the Annex-B stream of the units found |
| `ByteStream.ReadIff` | myRtspClient/rtspClient.cpp:1856-1857 | a receiver of the Annex-B byte stream, which looks for 00 00 01 by position, reads back the units that a stream was made of if and only if none holds 00 00 00 or 00 00 01 and none but the last ends in 00 |
| `ByteStream.RunIsRead` | myRtspClient/rtspClient.cpp:1808-1861 | from the results of a run with the sets due in which every call is ready and the first finds a unit, put together, it reads exactly the parameter sets, in order, and then the units found, if and only if all of them are such |
| `ByteStream.LaterRunIsRead` | myRtspClient/rtspClient.cpp:1808-1861 | without sets due, exactly the units found |
| `MediaClient.PrefixXps` | myRtspClient/nalu_types.cpp:34-53 | start code and decoded set behind what is in the buffer, or a failure for a set that does not decode or is empty |
| `MediaClient.PrefixSets` | myRtspClient/nalu_types_h264.cpp:161-183 | the sets in order up to one that fails, with the number of bytes written before |
| `MediaClient.NaluH264.PrefixParameterOnce` | myRtspClient/nalu_types_h264.cpp:161-183 | 00 00 00 01 and the SPS, then 00 00 00 01 and the PPS, if and only if both decode to something; the flag is cleared exactly then |
| `MediaClient.NaluH264.ParsePacket` | myRtspClient/nalu_types_h264.cpp:208-230 | error codes -2 and -3 for a bad mode and an unknown type; otherwise the type object, start and end flag of the specification |
| `MediaClient.NaluH264.CopyData` | myRtspClient/nalu_types_h264.cpp:123-150 | the chunk of the specification is appended in the caller's buffer, and the bytes in front are kept |
| `MediaClient.NaluH265.PrefixParameterOnce` | myRtspClient/nalu_types_h265.cpp:160-188 | the same with VPS, SPS and PPS in this order |
| `MediaClient.NaluH265.ParsePacket` | myRtspClient/nalu_types_h265.cpp:210-231 | error code -3 for an unknown type; otherwise the type object, start and end flag of the specification |
| `MediaClient.NaluH265.CopyData` | myRtspClient/nalu_types_h265.cpp:119-147 | the same with the 16-bit header put together from the two payload header bytes and the FU header |
| `MediaClient.NaluH264.constructor` | myRtspClient/nalu_types_h264.cpp:80-88 | parameter sets due, packetization mode 0, no parameter set and no type object |
| `MediaClient.NaluH265.constructor` | myRtspClient/nalu_types_h265.cpp:57-64 | parameter sets due, no parameter set and no type object |
| `MediaClient.FrameType.PrefixParameterOnce` | myRtspClient/rtspClient.cpp:1815-1820 | dispatch to the codec's object: the sets of that codec, with codec and sets unchanged |
| `MediaClient.FrameType.ParsePacket` | myRtspClient/rtspClient.cpp:1848-1851 | dispatch: success exactly for a packet that the codec knows, with its end flag and all that CopyData needs stored |
| `MediaClient.FrameType.CopyData` | myRtspClient/rtspClient.cpp:1856 | dispatch: the chunk of the packet just parsed is appended |
| `MediaClient.MediaSession.GetMediaData` | myRtspClient/myRtpTcpSession.cpp:109-185 | the next payload in the buffer and off the queue; size 0 when none has arrived in time, and null exactly without an RTP session |
| `MediaClient.RtspClient.AppendPacket` | myRtspClient/rtspClient.cpp:1848-1857 | one packet: an unknown one fails and leaves the output, any other appends its chunk and says whether the unit ends |
| `MediaClient.RtspClient.AssembleFrame` | myRtspClient/rtspClient.cpp:1826-1860 | the loop over the session's queue and two buffers refines Reassembly.Assemble for both codecs |
| `MediaClient.RtspClient.GetMediaData` | myRtspClient/rtspClient.cpp:1808-1861 | one call refines Reassembly.Call on buffer, size, parameter-set flag and queue; without a frame type it touches nothing |
| `Sending.WriteRestReports` | myRtspClient/utils.cpp:49-71 | for any schedule in which write never returns 0, Writen never writes a byte twice, reports what it wrote, and fails only on a broken connection before the end |
| `Sending.ExactlyOnce` | myRtspClient/rtspClient.cpp:1344-1377 | for any finite schedule of partial writes, EINTR, EAGAIN and hard errors in which write never returns 0, the accepted bytes are a prefix of the message, and all of it if and only if no error is reported |
| `Sending.SentIff` | myRtspClient/rtspClient.cpp:1344-1377 | no error is reported if and only if the link does not break or end before the message is out and no Writen finds it busy before it has written anything, by schedule and length of the message |
| `Sending.ZeroWriteRepeats` | myRtspClient/utils.cpp:58-64 | why ExactlyOnce asks for a write that never returns 0, as POSIX promises: a schedule with such a write makes a byte go out twice |
| `Sending.OutSocket.Writen` | myRtspClient/utils.cpp:49-71 | the pointer and counter loop has the result and the effect of the specification |
| `Sending.OutSocket.SendRtsp` | myRtspClient/rtspClient.cpp:1344-1377 | the retry loop has the result of the specification, and with it the exactly-once property and the exact condition of success |
| `Receiving.RestReports` | myRtspClient/utils.cpp:73-96 | over any schedule Readn stores the bytes that it takes off the stream, in order, and counts them; it fails only short of the size |
| `Receiving.BodyExact` | myRtspClient/rtspClient.cpp:1504-1540 | over any schedule RecvSDP stores just the bytes that it takes off the stream, and reports no error if and only if these are all the bytes asked for |
| `Receiving.FirstLineReads` | myRtspClient/utils.cpp:21-47 | on a blocking stream ReadLine stores and counts what the line reader of HeaderLines takes |
| `Receiving.PureHeaderReads` | myRtspClient/rtspClient.cpp:1454-1484 | the header loop succeeds exactly if the header reader has enough to read, and then stores what it takes |
| `Receiving.HeaderOnBlocking` | myRtspClient/rtspClient.cpp:1441-1485 | the same with any pattern of EINTR and partial reads on a blocking stream |
| `Receiving.MessageFraming` | myRtspClient/rtspClient.cpp:1441-1485 | a header block that ends at its first blank line, in front of any body: no error, and the block is stored whole with the stream left at the first body byte if and only if it is shorter than the buffer |
| `Receiving.HeaderThenBody` | myRtspClient/rtspClient.cpp:1504-1540 | the header and then a body of the announced size: each is stored exactly and the stream is left behind the body |
| `Receiving.StringFraming` | myRtspClient/rtspClient.cpp:1487-1502 | the string variant gives the block if and only if it is shorter than the buffer and free of NUL |
| `CutLines.GoingWholeIff` | myRtspClient/utils.cpp:28-46 | the same from the middle of any line, for any schedule of partial, interrupted, refused and failing reads |
| `CutLines.StopsEarly` | myRtspClient/rtspClient.cpp:1474-1480 | once a cut leaves a rest that looks like a blank line, the loop fails or ends there with part of the block, whatever the reads do next |
| `CutLines.FramingIff` | myRtspClient/rtspClient.cpp:1441-1485 | over any schedule RecvRTSP stores a header block whole and leaves the stream at the first body byte if and only if the block is shorter than the buffer, the link does not break while it is read, no ReadLine finds nothing to read, and none is cut in front of a rest that looks like a blank line and is not the end of the block |
| `CutLines.CutLineLooksBlank` | myRtspClient/utils.cpp:40-42 | a concrete stream that does not block: the rest of a cut line is taken for the blank line |
| `Receiving.LineCount` | myRtspClient/utils.cpp:28-46 | ReadLine counts at most one byte more than it stores |
| `Receiving.LineFrom` | myRtspClient/utils.cpp:28-46 | what is stored stays below the limit, and a count beyond what is stored is at least the limit |
| `Receiving.LineShape` | myRtspClient/utils.cpp:28-46 | a line feed only ever ends what ReadLine stores, and then the count is exact |
| `Receiving.BlankText` | myRtspClient/rtspClient.cpp:1476-1480 | the expression for a blank line, applied to the C string in the buffer, decides whether the stored line is blank |
| `Receiving.LineFailsForGood` | myRtspClient/rtspClient.cpp:1460-1468 | when ReadLine fails, errno is neither EINTR nor EAGAIN, so that two branches of the caller are never taken |
| `Receiving.RestFailsForGood` | myRtspClient/rtspClient.cpp:1522-1530 | the same for Readn |
| `Receiving.InSocket.ReadLine` | myRtspClient/utils.cpp:21-47 | the loop over the destination buffer has the result of the specification and leaves every byte outside the line and its zero alone |
| `Receiving.InSocket.Readn` | myRtspClient/utils.cpp:73-96 | the same for Readn |
| `Receiving.InSocket.ReadHeaderLine` | myRtspClient/rtspClient.cpp:1459-1480 | one pass of the header loop, with the test for the blank line made on the buffer |
| `Receiving.InSocket.RecvRtsp` | myRtspClient/rtspClient.cpp:1441-1485 | the buffer holds the bytes of the specification in front of zeros |
| `Receiving.InSocket.RecvSdp` | myRtspClient/rtspClient.cpp:1504-1540 | the same for the body; no error if and only if buffer and remaining stream together are the stream before |
| `LineCursor.Lossless` | myRtspClient/myRegex.cpp:93-122 | the lines and the one character dropped behind each but the last give the text back |
| `LineCursor.LfText` | myRtspClient/myRegex.cpp:106-116 | text with line feeds comes out as its lines and an empty one |
| `LineCursor.CrLfText` | myRtspClient/myRegex.cpp:106-112 | text with CRLF comes out with a line feed in front of every line but the first |
| `LineCursor.MyRegex.RegexLine` | myRtspClient/myRegex.cpp:93-123 | each call hands out the next of the lines of its text and moves the cursor behind it; the end is reported exactly when no line is left, and a new text starts over |
| `SdpData.StepConsistent` | myRtspClient/sdp_data.cpp:51-193 | every line keeps the invariant: each entry's media type is its key, each payload id carries it, and inside the media part the pointer is to an entry |
| `SdpData.AttributeFrame` | myRtspClient/sdp_data.cpp:142-189 | an a= line outside the media part changes nothing, and inside it only the entry of the latest m= line, never its type, ports, protocol or set of payload ids, and no other entry |
| `SdpData.LastWordCounts` | myRtspClient/sdp_data.cpp:39-194 | over any list of lines, from any state: codec, rate, channels, mode and parameter sets of a payload id under a media type are those of the last attribute line that says something about them in a section of that type behind a listing of the id, what they were before if there is none, and so unset in a fresh parse |
| `SdpData.LastFieldsCount` | myRtspClient/sdp_data.cpp:39-194 | ports and protocol of an entry are those of the last m line of its type that gives them, and its control URI that of the last control line in a section of it |
| `SdpData.LastSessionWords` | myRtspClient/sdp_data.cpp:79-121 | name, version, origin, connection and time of the session are those of the last line that gives them: an s line, a v line in the session part, an o line there that has an origin or connection data, a t line that reads as one; without such a line they are what they were |
| `SdpData.WholeParse` | myRtspClient/sdp_data.cpp:39-194 | over any list of lines: the part is that of the last s, m or t line, the pointer that of the last m line, an entry exists exactly if an m line names it, its payload ids are those listed, its media type is its key, and each of its payload ids carries that media type |
| `SdpData.SdpDescription.TakeSession` | myRtspClient/sdp_data.cpp:80-110 | the assignments for the three keys of the session part |
| `SdpData.SdpDescription.TakeMedia` | myRtspClient/sdp_data.cpp:122-140 | the reads of the tokens of an m= line, one after the other, and the loop over the payload ids give the entry of the specification |
| `SdpData.SdpDescription.TakeAttribute` | myRtspClient/sdp_data.cpp:142-189 | the four branches with their lookups and map assignments change the entry as the specification says |
| `SdpData.SdpDescription.TakeLine` | myRtspClient/sdp_data.cpp:52-192 | one pass of the loop over the three flags, the pointer and the maps has the effect of the specification |
| `SdpData.SdpDescription.Parse` | myRtspClient/sdp_data.cpp:39-194 | the loop over the line cursor parses the classified lines of the text, each once and in order |
| `CharClasses.AtomMatchesChar` | gtest/gtest-1.7.0/src/gtest-port.cc:228-250 | every class as a set of codes: digits, word characters and spaces with their complements, any character but the line feed for a dot, the code of each named escape, and punctuation for itself |
| `CharClasses.IsValidEscape` | gtest/gtest-1.7.0/src/gtest-port.cc:222-224 | behind a backslash stand the printing characters of ASCII without letters and digits, and eleven letters |
| `CharClasses.MetaIff` | gtest/gtest-1.7.0/src/gtest-port.cc:293-305 | unescaped characters with a meaning or without support |
| `SimpleRegex.ValidateRegex` | gtest/gtest-1.7.0/src/gtest-port.cc:257-311 | the loop accepts exactly the valid texts, and not null |
| `SimpleRegex.ValidIff` | gtest/gtest-1.7.0/src/gtest-port.cc:257-311 | valid texts are exactly the texts of well-formed patterns: anchors at the ends only, known escapes, repetitions behind an atom |
| `SimpleRegex.Parse` | gtest/gtest-1.7.0/src/gtest-port.cc:257-311 | a valid text is the text of the pattern it is parsed into |
| `SimpleRegex.MatchesHeadCons` | gtest/gtest-1.7.0/src/gtest-port.cc:329-340 | matching an item and more at the head is a split into characters of the item and a match of the rest |
| `SimpleRegex.MatchRepetitionAndRegexAtHead` | gtest/gtest-1.7.0/src/gtest-port.cc:321-342 | decides whether some number of repetitions and then the rest of the pattern match at the head |
| `SimpleRegex.MatchRegexAtHead` | gtest/gtest-1.7.0/src/gtest-port.cc:347-373 | decides whether some prefix is in the language of the items, and is the whole text with an end anchor; the mutual recursion terminates |
| `SimpleRegex.MatchRegexAnywhere` | gtest/gtest-1.7.0/src/gtest-port.cc:383-396 | sound and complete: true if and only if some substring, a prefix with a start anchor and up to the end with an end anchor, is in the pattern's language; false for null |
| `SimpleRegex.AnchoredMatch` | gtest/gtest-1.7.0/src/gtest-port.cc:383-396 | a pattern anchored on both sides matches exactly the texts in its language |
| `SimpleRegex.ParseInverts` | gtest/gtest-1.7.0/src/gtest-port.cc:257-311 | the text of a well-formed pattern is parsed into that pattern and no other |
| `SimpleRegex.WordIn` | gtest/gtest-1.7.0/src/gtest-port.cc:321-373 | every well-formed pattern has a word that it matches |
| `SimpleRegex.FullPatternIff` | gtest/gtest-1.7.0/src/gtest-port.cc:436-447 | the text prepared for a full match is that of the pattern anchored in front, and behind exactly if the pattern does not end in an escaped dollar sign |
| `SimpleRegex.FullMatchIff` | gtest/gtest-1.7.0/src/gtest-port.cc:383-447 | a full match with the prepared text accepts, of all texts, exactly the words of the pattern if and only if the pattern does not end in an escaped dollar sign |
| `SimpleRegex.FullMatchTooMuch` | gtest/gtest-1.7.0/src/gtest-port.cc:444 | for every pattern that ends in one, a text that the full match accepts and that is no word of it |
| `SimpleRegex.FullMatchOfPrefix` | gtest/gtest-1.7.0/src/gtest-port.cc:444 | a concrete one: the full form of an escaped dollar sign, parsed and matched, accepts $x |
| `Primes.SmallDivisor` | gtest/gtest-1.7.0/samples/prime_tables.h:61 | of a divisor and its cofactor one has a square that is at most the number |
| `Primes.PrimeBeyond` | gtest/gtest-1.7.0/samples/prime_tables.h:69-75 | there is a prime above every number, so that the search for the next one ends |
| `Primes.NextPrimeUnique` | gtest/gtest-1.7.0/samples/prime_tables.h:69-75 | there is only one next prime |
| `Primes.EnoughTried` | gtest/gtest-1.7.0/samples/sample1.cc:56-67 | no divisor below a number whose square is beyond n means no divisor at all |
| `Primes.OnTheFlyIsPrime` | gtest/gtest-1.7.0/samples/prime_tables.h:58-67 | trial division decides primality |
| `Primes.OnTheFlyGetNextPrime` | gtest/gtest-1.7.0/samples/prime_tables.h:69-75 | the smallest prime above a p from 0 on; -1 for a negative p |
| `Primes.IsPrime` | gtest/gtest-1.7.0/samples/sample1.cc:47-68 | odd trial division with the cutoff i > n / i decides primality |
| `Primes.SurvivorIsPrime` | gtest/gtest-1.7.0/samples/prime_tables.h:106-113 | a number not crossed out by anything below it is prime, and no prime is crossed out |
| `Primes.CompositeCrossesNothing` | gtest/gtest-1.7.0/samples/prime_tables.h:107 | skipping the composite numbers loses no crossing-out |
| `Primes.PreCalculatedPrimeTable.constructor` | gtest/gtest-1.7.0/samples/prime_tables.h:83-86 | a table of max + 1 entries, each of which is true exactly for a prime |
| `Primes.PreCalculatedPrimeTable.CalculatePrimesUpTo` | gtest/gtest-1.7.0/samples/prime_tables.h:102-114 | the sieve marks exactly the primes up to max |
| `Primes.PreCalculatedPrimeTable.CrossOut` | gtest/gtest-1.7.0/samples/prime_tables.h:110-112 | one pass crosses out exactly the proper multiples |
| `Primes.PreCalculatedPrimeTable.IsPrimeInTable` | gtest/gtest-1.7.0/samples/prime_tables.h:89-91 | true exactly for a prime within the table |
| `Primes.PreCalculatedPrimeTable.GetNextPrime` | gtest/gtest-1.7.0/samples/prime_tables.h:93-99 | the smallest prime above p if the table holds it, and -1 exactly if the table holds no prime above p |
| `Primes.HybridPrimeTable.constructor` | gtest/gtest-1.7.0/samples/sample8_unittest.cc:52-56 | a precalculated table exactly unless on-the-fly answers are forced |
| `Primes.HybridPrimeTable.IsPrime` | gtest/gtest-1.7.0/samples/sample8_unittest.cc:62-67 | decides primality, whichever table answers |
| `Primes.HybridPrimeTable.GetNextPrime` | gtest/gtest-1.7.0/samples/sample8_unittest.cc:69-75 | the next prime for every p from 0 on, as the on-the-fly table gives it; for p = -1 it gives 2 exactly with a precalculated table that reaches 2 |
| `TestFilter.PatternMatchesIff` | gtest/gtest-1.7.0/src/gtest.cc:440-455 | the recursive matcher decides the language of the pattern up to its first colon |
| `TestFilter.MatchesFilterIff` | gtest/gtest-1.7.0/src/gtest.cc:457-476 | a name passes a filter if and only if it is in the language of one of the colon-separated patterns |
| `TestFilter.CheckFilter` | gtest/gtest-1.7.0/src/gtest.cc:457-476 | the loop decides the same |
| `TestFilter.FilterMatchesTestIff` | gtest/gtest-1.7.0/src/gtest.cc:480-506 | a test passes the flag if and only if its full name is in a positive pattern, or there is only a negative part, and it is in no negative one |
| `TestFilter.PassesFlagIff` | gtest/gtest-1.7.0/src/gtest.cc:480-506 | the same by positions: the flag splits at its first dash, its parts at their colons; a full name passes if it is in the language of a pattern in front, or nothing stands there and a dash follows, and of none behind |
| `TestFilter.DisabledIff` | gtest/gtest-1.7.0/src/gtest.cc:153 | a name passes the filter for disabled tests if and only if it starts with DISABLED_ or holds /DISABLED_ |
| `TestFilter.DeathIff` | gtest/gtest-1.7.0/src/gtest.cc:158 | a name passes the filter for death tests if and only if it ends with DeathTest or holds DeathTest/ |
| `Shuffling.Random.Generate` | gtest/gtest-1.7.0/src/gtest.cc:291-305 | one step of the 32-bit generator and a number below the range |
| `Shuffling.NextStatePermutes` | gtest/gtest-1.7.0/src/gtest.cc:291-305 | one step of the generator is a permutation of the numbers below 2^31; the step back uses the inverse of the multiplier |
| `Shuffling.FisherYatesPermutes` | gtest/gtest-1.7.0/src/gtest-internal-inl.h:323-327 | whatever is drawn, the result is a permutation |
| `Shuffling.EveryPermutation` | gtest/gtest-1.7.0/src/gtest-internal-inl.h:323-327 | every permutation comes out for some draws |
| `Shuffling.DrawsDetermined` | gtest/gtest-1.7.0/src/gtest-internal-inl.h:323-327 | different draws order different elements differently, so that no order is favoured over another |
| `Shuffling.InPlaceShuffles` | gtest/gtest-1.7.0/src/gtest-internal-inl.h:323-327 | the swaps in the vector shuffle the range and leave what is around it alone |
| `Shuffling.ShuffleLoop` | gtest/gtest-1.7.0/src/gtest-internal-inl.h:323-327 | the loop makes the swaps that the generator draws from its state |
| `Shuffling.ShuffleRange` | gtest/gtest-1.7.0/src/gtest-internal-inl.h:310-328 | the range becomes the shuffle with the generator's draws, a permutation of itself, and nothing else changes |
| `Shuffling.ShuffledBlocks` | gtest/gtest-1.7.0/src/gtest.cc:4601-4607 | shuffling the block and then the rest keeps the index vector a permutation that maps the block to itself |
| `Shuffling.ShuffleBlocks` | gtest/gtest-1.7.0/src/gtest.cc:4601-4607 | the first part and then the rest of the vector are shuffled with successive draws |
| `Shuffling.VisitMultiset` | gtest/gtest-1.7.0/src/gtest-internal-inl.h:593-596 | what is visited, and how often, depends on the indices as a multiset only |
| `Shuffling.VisitsAllBlockFirst` | gtest/gtest-1.7.0/src/gtest-internal-inl.h:593-596 | visiting through such a vector meets every element exactly once, all of the block before any of the rest |
| `Shuffling.FlattenMultiset` | gtest/gtest-1.7.0/src/gtest.cc:4316-4319 | the same lists in another order hold the same elements as often |
| `Shuffling.AccessorsAgreeIff` | gtest/gtest-1.7.0/src/gtest-internal-inl.h:586-596 | the const accessor, which ignores the index it looks up, agrees with the mutable one everywhere if and only if the vector is unshuffled |
| `RunOrders.TestOrderMultiset` | gtest/gtest-1.7.0/src/gtest-internal-inl.h:593-596 | in the order of an iteration, shuffled from any seed or not, every test that is due runs as often as it is listed, and no other |
| `RunOrders.TestOrderUnshuffled` | gtest/gtest-1.7.0/src/gtest-internal-inl.h:593-596 | unshuffled, in the order of the lists |
| `RunOrders.SeedNext` | gtest/gtest-1.7.0/src/gtest-internal-inl.h:135-157 | the seeds of the iterations go round from 1 to 99999: the k-th is given in closed form |
| `Sharding.ShardingIff` | gtest/gtest-1.7.0/src/gtest.cc:4381-4423 | the variables contradict each other exactly if one is set and not 0 <= index < total, unless in a subprocess; they select exactly if they do not and total is above 1 |
| `Sharding.SelectedIff` | gtest/gtest-1.7.0/src/gtest.cc:4484-4492 | a test is selected if and only if it is runnable and its number among the runnable ones is on the shard |
| `Sharding.ExactlyOneShard` | gtest/gtest-1.7.0/src/gtest.cc:4381-4506 | for any list of runnable flags and any number of shards from 1 on, a runnable test is selected by exactly one of the launches 0 to n-1, and any other test by none |
| `Sharding.SizeOfShard` | gtest/gtest-1.7.0/src/gtest.cc:4484-4496 | a launch selects the number of runnable tests divided by that of shards, and one more on the first shards if a remainder is left |
| `Sharding.ShardsBalanced` | gtest/gtest-1.7.0/src/gtest.cc:4484-4496 | the sizes of two shards differ by at most one, the earlier being no smaller |
| `Sharding.ShardSizesAddUp` | gtest/gtest-1.7.0/src/gtest.cc:4484-4496 | the sizes of all shards add up to the number of runnable tests |
| `Sharding.IgnoreSelectsAll` | gtest/gtest-1.7.0/src/gtest.cc:4489 | without sharding every runnable test is selected |
| `TestCases.RunnableIff` | gtest/gtest-1.7.0/src/gtest.cc:4475-4489 | a test is runnable if and only if its full name passes the flag and disabled tests are asked for or neither name is that of a disabled one |
| `TestCases.TestInfo.Judge` | gtest/gtest-1.7.0/src/gtest.cc:4475-4501 | one test: disabled by its own or its test case's name, matching the filter, and to run exactly if it is runnable and on the shard |
| `TestCases.TestCase.FilterTests` | gtest/gtest-1.7.0/src/gtest.cc:4468-4504 | the inner loop: every test judged and numbered from the given number on; the test case is to run exactly if one of its tests is |
| `TestCases.TestCase.AddTestInfo` | gtest/gtest-1.7.0/src/gtest.cc:2423-2426 | the test is the last one, and the index vector stays that of the order of registration |
| `TestCases.TestCase.ShuffleTests` | gtest/gtest-1.7.0/src/gtest.cc:2463-2465 | the index vector is shuffled with the generator's draws and stays a permutation |
| `TestCases.TestCase.UnshuffleTests` | gtest/gtest-1.7.0/src/gtest.cc:2468-2472 | the order of registration is restored from any permutation |
| `TestCases.TestCase.Run` | gtest/gtest-1.7.0/src/gtest.cc:2429-2452 | the tests that are to run run in the order of the index vector, each exactly once, and in order of registration when unshuffled; none of a test case that is not to run |
| `TestCases.RunningTimes` | gtest/gtest-1.7.0/src/gtest.cc:2300-2301 | a test that is to run runs as often as it is listed, and any other not at all |
| `TestCases.RunningMultiset` | gtest/gtest-1.7.0/src/gtest.cc:2441-2443 | what runs does not depend on the order |
| `TestCases.RunsOnItsShard` | gtest/gtest-1.7.0/src/gtest.cc:4444-4506 | after the filtering of one launch out of n, a test is to run if and only if it is runnable and the launch is that of its one shard, which depends on names and flags only |
| `TestRegistry.FiledInsert` | gtest/gtest-1.7.0/src/gtest.cc:4190-4202 | filing a new name keeps the death test cases in front and the names different |
| `TestRegistry.DeathTestsFirst` | gtest/gtest-1.7.0/src/gtest.cc:4162-4206 | in a run, the first places are exactly those of death test cases |
| `TestRegistry.FilterCases` | gtest/gtest-1.7.0/src/gtest.cc:4467-4506 | the outer loop numbers the runnable tests through all test cases, and counts those selected |
| `TestRegistry.RunEach` | gtest/gtest-1.7.0/src/gtest.cc:4316-4319 | the loop visits the test cases in the order of the index vector and runs what each has to run in the order of its own |
| `TestRegistry.ExactIsGood` | gtest/gtest-1.7.0/src/gtest.cc:4290-4346 | an iteration in its exact order visits every test case once, the death tests first, and runs every test that is due once and no other |
| `TestRegistry.UnitTestImpl.GetTestCase` | gtest/gtest-1.7.0/src/gtest.cc:4173-4206 | the test case of that name; a new one stands behind the death tests so far or at the end, and no other moves |
| `TestRegistry.UnitTestImpl.AddTestInfo` | gtest/gtest-1.7.0/src/gtest-internal-inl.h:654-676 | the test becomes the last one of the test case of its name; the list of test cases is the same, or has a fresh one inserted at its place, and every other test case keeps its place and its tests |
| `TestRegistry.RegisteredNext` | gtest/gtest-1.7.0/src/gtest.cc:4190-4202 | the names in the order of a list of registrations, with one more: the same, or the new name behind those of its kind |
| `TestRegistry.InOrderMultiset` | gtest/gtest-1.7.0/src/gtest-internal-inl.h:654-676 | the tests in the order of a run, which the names alone decide, are those registered, each as often |
| `TestRegistry.UnitTestImpl.RegisterTests` | gtest/gtest-1.7.0/src/gtest-internal-inl.h:654-676 | any list of registrations from an empty registry: the test cases are those named, each once, the death test cases in the order of their first tests and then the others in theirs, each has exactly its tests in the order registered, and together they have exactly the tests registered |
| `TestRegistry.UnitTestImpl.AddTestCase` | gtest/gtest-1.7.0/src/gtest.cc:4186-4204 | the new test case stands at its place, and the index vector stays that of the order of registration |
| `TestRegistry.UnitTestImpl.constructor` | gtest/gtest-1.7.0/src/gtest.cc:3994-4024 | an empty registry without death tests |
| `TestRegistry.UnitTestImpl.Iterate` | gtest/gtest-1.7.0/src/gtest.cc:4284-4348 | the loop over the iterations: as many as asked for, each in its exact order, with the seeds one after the other |
| `TestRegistry.UnitTestImpl.FilterTests` | gtest/gtest-1.7.0/src/gtest.cc:4455-4506 | every test has the flags of the specification, and the number of selected tests is returned |
| `TestRegistry.ShuffleInside` | gtest/gtest-1.7.0/src/gtest.cc:4610-4612 | the loop over the test cases: the index vector of each is shuffled with the draws from the state that the generator has after those before it |
| `TestRegistry.UnitTestImpl.ShuffleTests` | gtest/gtest-1.7.0/src/gtest.cc:4601-4613 | the death tests' part of the index vector, the rest, and then the vector inside each test case are shuffled with the generator's successive draws, and all stay permutations that map the death tests to themselves |
| `TestRegistry.UnitTestImpl.UnshuffleTests` | gtest/gtest-1.7.0/src/gtest.cc:4616-4623 | both levels are back in the order of registration |
| `TestRegistry.UnitTestImpl.RunIteration` | gtest/gtest-1.7.0/src/gtest.cc:4290-4346 | one iteration visits the test cases and runs the tests that are due in exactly the order of registration, or the one that the generator gives from the seed, and leaves the registry unshuffled |
| `TestRegistry.UnitTestImpl.RunAllTests` | gtest/gtest-1.7.0/src/gtest.cc:4222-4353 | contradictory sharding variables end the run; otherwise each iteration visits and runs in exactly the order of registration or of its seed what the flags say: every selected test once and no other, every test case once with the death tests first; the registry ends unshuffled |
| `TestPrograms.FlaggedIfMust` | gtest/gtest-1.7.0/src/gtest.cc:4444-4506 | after the filtering a registered test is to run if and only if its full name passes the flag, it is not disabled or disabled tests are asked for, and its number among those tests is on the shard |
| `TestPrograms.RunProgram` | gtest/gtest-1.7.0/src/gtest.cc:4222-4353 | registrations and then a run, in terms of names, flags and variables: in every iteration each registered test runs exactly once if it passes the flag, is not disabled or asked for, and has its number on the shard, and nothing else runs; the test cases come death tests first, and all in exactly the order of the registrations or of the seed |
| `Utf8.CodePointToUtf8` | gtest/gtest-1.7.0/src/gtest.cc:1436-1462 | the buffer filled from its end holds the encoding of the table in section 3 of RFC 3629, nothing for 0, or the text that names a value of more than 21 bits |
| `Utf8.CharacterRoundTrip` | gtest/gtest-1.7.0/src/gtest.cc:1436-1462 | the encoding of any value of at most 21 bits is one character with that value |
| `Utf8.ShortestForm` | gtest/gtest-1.7.0/src/gtest.cc:1441-1460 | no octets laid out as a character with the same value are fewer, and none as few are different; the value has at most 21 bits |
| `Utf8.PrefixFree` | gtest/gtest-1.7.0/src/gtest.cc:1436-1462 | no encoding is a proper prefix of another |
| `Utf8.RoundTrip` | gtest/gtest-1.7.0/src/gtest.cc:1500-1521 | the octets of any sequence of code points from 1 to 1FFFFF decode to the sequence |
| `Utf8.HexRoundTrip` | gtest/gtest-1.7.0/src/gtest.cc:1643-1647 | the digits of the text for an invalid value are those of the value |
| `Utf8.InvalidText` | gtest/gtest-1.7.0/src/gtest.cc:1433-1439 | a value of more than 21 bits becomes (Invalid Unicode 0x, its digits and a closing parenthesis |
| `WideStrings.PointsLossless` | gtest/gtest-1.7.0/src/gtest.cc:1471-1518 | the code points of any 16-bit string, paired surrogates or not, encode back to the string |
| `WideStrings.PointsOfEncode16` | gtest/gtest-1.7.0/src/gtest.cc:1471-1485 | in UTF-16 as section 2.1 of RFC 2781 defines it, every surrogate pair becomes the code point it encodes and every other scalar value itself |
| `WideStrings.NextPoint` | gtest/gtest-1.7.0/src/gtest.cc:1508-1516 | one pass of the loop takes the first code point of what is left, with one or two characters |
| `WideStrings.WideStringToUtf8` | gtest/gtest-1.7.0/src/gtest.cc:1500-1521 | the loop over the string up to its NUL or the given number gives the text of its code points |
| `WideStrings.UnchangedWithoutNul` | gtest/gtest-1.7.0/src/gtest.cc:1659-1675 | octets without NUL pass unchanged into the string |
| `WideStrings.NulSpelled` | gtest/gtest-1.7.0/src/gtest.cc:1659-1675 | and a NUL among any octets becomes a backslash and a zero in its place |
| `WideStrings.ShortText` | gtest/gtest-1.7.0/src/gtest.cc:1500-1521 | with 16-bit characters the text of any string decodes, and the result gives every character back: different strings have different texts |
| `WideStrings.ShortTextOfScalars` | gtest/gtest-1.7.0/src/gtest.cc:1500-1521 | the text of well-formed UTF-16 is the UTF-8 of the same scalar values |
| `WideStrings.LongText` | gtest/gtest-1.7.0/src/gtest.cc:1500-1521 | with 32-bit characters the text decodes to the string if and only if every character has at most 21 bits |
| `XmlOutput.OutputXmlCDataSection` | gtest/gtest-1.7.0/src/gtest.cc:3246-3263 | the loop over strstr writes the section of the specification |
| `XmlOutput.SectionsAsWritten` | gtest/gtest-1.7.0/src/gtest.cc:3246-3263 | data without an end of a section are one section as they are; at the first ]]> the section is closed, ]]&gt; follows, and the rest is a section of its own |
| `XmlOutput.CDataRoundTrip` | gtest/gtest-1.7.0/src/gtest.cc:3246-3263 | a reader of character data gets any data back, with whatever runs of brackets, if and only if every character may occur in XML |
| `XmlOutput.CDataLineEnds` | gtest/gtest-1.7.0/src/gtest.cc:3246-3263 | with the line-end handling of section 2.11 of XML 1.0 the reader gets the data with proper line ends, which are the data if and only if there is no carriage return |
| `XmlOutput.EscapeXml` | gtest/gtest-1.7.0/src/gtest.cc:3139-3181 | the loop writes the escape of each character in order |
| `XmlOutput.WrittenAsIs` | gtest/gtest-1.7.0/src/gtest.cc:3139-3181 | a character is written as it is exactly if it is valid, no bracket or ampersand, and in an attribute value no quote, tab or line end |
| `XmlOutput.EscapedPlain` | gtest/gtest-1.7.0/src/gtest.cc:3139-3181 | no angle bracket is left, and in an attribute value no quote |
| `XmlOutput.EscapeRoundTrip` | gtest/gtest-1.7.0/src/gtest.cc:3139-3181 | reading the escaped text, as an attribute value or as character data, gives exactly the accepted characters |
| `XmlOutput.AttributeLineEnds` | gtest/gtest-1.7.0/src/gtest.cc:3169-3175 | in an attribute value, tabs, line feeds and carriage returns come through the normalisation of a reader |
| `XmlOutput.RemoveInvalidXmlCharacters` | gtest/gtest-1.7.0/src/gtest.cc:3185-3194 | the loop keeps exactly the accepted characters |
| `XmlOutput.OnlyValidIff` | gtest/gtest-1.7.0/src/gtest.cc:3021-3028 | what is kept may occur in XML, and everything is kept if and only if every octet may occur there and, where char is signed, none is from 80 on |
| `XmlOutput.DetailRoundTrip` | gtest/gtest-1.7.0/src/gtest.cc:3320-3321 | the detail of a failure comes back without its invalid characters |

## Left out

- Errors of `recv`, a peer that closes, and running out of memory in the poll function; a read that blocks is a turn that is not taken until enough bytes are queued.
- Non-blocking reads inside the response callback's line loop. The callback's text is what the array holds in front of the NUL that was written last; a callback that reads it as a string sees it up to the first.
- The map from sockets to destinations is a list of different objects.
- Values of `m_recvstate` other than the four of the enumeration, RTP session code, sockets, ports, sleeping and timers.
- Frame types other than H.264 and H.265; the empty hooks around every frame and packet. The virtual calls are a match on a datatype of the two objects.
- Aggregation packets and FU-B: they are copied as the code copies them, and nothing is claimed about their meaning in the RFCs.
- MediaClient.RtspClient.GetMediaData: payloads are at most 8192 bytes, each is at least as long as its header, and the caller's buffer holds the parameter sets and `max_size` plus 4 bytes; the code checks none of these before it copies.
- MediaClient.MediaSession.GetMediaData: a failing poll of the RTP library, on which the code returns null, and the pauses of its wait; a packet that arrives while a call waits counts as queued before the call.
- Base64: a parameter set is its decoded bytes or a failure to decode.
- Sending.ExactlyOnce: `write` never returns 0 for a positive size, as POSIX has it; `ZeroWriteRepeats` shows why. The checks for a readable or writable socket always succeed.
- Receiving.MessageFraming: on a blocking stream with any pattern of interruptions, as the client's sockets are; `CutLines.FramingIff` has the exact condition for all others.
- POSIX regular expressions: `classify` stands for the expressions that take an SDP line apart, and the test for a blank line is its meaning. Lines fit the group buffer.
- Numbers in `o=` and `t=` lines are kept as text, and the number that a payload id is read as comes with its token.
- SimpleRegex.MatchRegexAnywhere: texts shorter than the largest `size_t`, as the source demands; the messages for an invalid expression are not modelled.
- Primes.OnTheFlyIsPrime: integers are unbounded, so `i*i` does not overflow. Primes.PreCalculatedPrimeTable.GetNextPrime: for p from -1 on, since the code reads in front of its array below that.
- Shuffling.ShuffleRange: ranges of at most 2 to the 31, beyond which the generator aborts; the vector is a value that the loop replaces.
- Test bodies, listeners, environments, results and failures, repeating for ever, `--gtest_list_tests`, and the clock that gives a seed when the flag is 0. A run is the list of test cases visited and tests run.
- WideStrings.WideStringToUtf8: `wchar_t` is the bits that it has as a UInt32, and its size a parameter.
- XmlOutput.CDataRoundTrip: the reader knows character data, CDATA sections, the five named references and hexadecimal ones below 80; the elements and attributes around them, and the report as a whole, are not part of this model.
- Authentication, HTTP tunnelling, URIs, logging, death tests, colour output, the remaining samples and scripts: plumbing, or members that are easy.
