# Verified model of the LDCP client library

The library talks to laser scanners. Its hard part is one path: bytes on the wire, checked frames, matched
responses and buffered scan blocks, assembled scan frames. This project models that path in Dafny and proves
what each stage promises, over all inputs, all runs and all interleavings. `dafny verify dfyconfig.toml` checks
everything.

| files | what they hold |
|---|---|
| `Bytes`, `Crc16`, `CrcDetection` | bit lists; the byte-wise CRC-16 loop against bit-serial division; which alterations it always detects |
| `Base64`, `Base64Laws` | encoder, decoder and both length predictors over arrays; round trips; when a prediction is exact |
| `InputStream`, `Framing`, `FramingLaws`, `EncapsulationLaws`, `HeaderLaws`, `ParserLaws`, `Confinement` | stream extraction, the frame format, the header loop; one call on one line; frames by their text and headers; the parser on arbitrary bytes; exactly which lines it keeps apart from what follows |
| `ReceiveLoop`, `Misjudgment`, `WritePump`, `Link`, `Transport` | receiving and sending as step machines, both joined; behind which lines frames are judged by their own checksums; the transport object whose methods perform the steps in place |
| `OobPacket` | verification of out-of-band packets, which clears and restores the checksum field |
| `ResponseMatching`, `ScanQueues`, `Reception`, `Session` | request/response matching and the two scan queues as step machines, what received messages do to them, and the session object |
| `ScanBlocks`, `ScanNotifications`, `ScanTransports`, `ScanFrames`, `ScanPath` | block decoding, notifications with any layers, agreement of the two transports, frame reassembly, and the whole path from messages received to frames read |

How the code appears in the model:

- A `uint16_t` or `uint8_t` that is shifted or xored is a list of 16 or 8 bits, most significant first; a byte is
  an integer below 256. Packets are little-endian.
- The objects of `src/transport.cpp` and `src/session.cpp` are classes. Each method is one section that the
  source executes without another thread in between (one dispatched handler, or one stretch under a mutex
  between two waits), and its contract ties the new state to a step function. The run theorems quantify over
  every sequence of enabled steps: arrivals cut anywhere, partial writes, failures, timeouts, late and duplicate
  responses, closing and reopening.
- The JSON library is an arbitrary function from the unread bytes to how many it takes and whether it found an
  object. A message is identified with the text it was read from. The code does not compare the end of the JSON
  text with the declared length, so "the reader takes exactly the body" (`ReadsObject`) is a hypothesis of the
  theorems that need it, never an axiom. Theorems about lines with arbitrary contents assume instead that the
  reader takes characters one at a time (`ReadsAsStream`): where it stops early it has not seen what follows, and
  it goes on skipping white space after a line feed. That some frame is misjudged is shown with empty objects of
  any length, which the reader is assumed to accept (`ReadsBlankObjects`).
- `istream >>`, `read`, `ignore` and `std::stoi` are modelled with their failure modes: eofbit at the end of the
  buffer, overflow, a minus sign that wraps an unsigned value, exceptions.

What the proofs show to be false or conditional in the code:

- A call of the parser does not always end on its own line. It does, whatever follows, if and only if the header
  loop, given the line alone, stops before the line runs out (`RealignsExactlyWithin`; the guard is the stream
  state after each extraction). The empty line and a header declared longer than its line run out
  (`EmptyAndOverrunRunOut`). When a body is declared to reach beyond the line, a call leaves the line exactly if
  what follows happens to complete the body with the right checksum and comma and the object read from it ends
  beyond the line (`BeyondRealignsUnlessChecked`); when the JSON reader has reached the line's end, exactly if it
  takes more (`UnfinishedRealignsUnlessRead`).
- Frames behind a line are all judged by their own checksums if and only if the loop stops within that line
  (`FramesAreJudgedExactlyWithin`): behind every line it runs out of, some frame is dropped although its checksum
  is right or delivered although it is wrong. Behind an empty line no checksum counts
  (`ChecksumIsLostBehindEmptyLine`), and an overrunning header can swallow any number of frames
  (`OverrunSwallowsFollowingFrames`). A line that ends in an unfinished object or body is not covered by this
  equivalence: an object cut off where no digit may follow, say, is given up at the first digit of
  the next frame, which is then judged properly.
- The decoded length is predicted exactly if and only if the padding is at most `3 * letters % 4`. Where it is
  predicted too long, intensities end in bytes of the ranges decoded before them (`RangesShowThrough`).
- An accepted out-of-band packet may be shorter than the samples it announces (`AcceptedMayBeTruncated`).
- `std::remove_if` is called without `erase`. That would corrupt a queue of two (`SecondEntryIsLeftMovedFrom`);
  it is harmless because no run ever queues two responses.
- A queued response is lost exactly when the session is closed and no further answer comes
  (`LostExactlyByClosing`). Without the command mutex a caller could return another caller's response
  (`WithoutMutexResponsesAreSwapped`).
- An error response is left in the queue when its command returns; the next command's new id makes it invisible.
- A failed write is never popped, so nothing is written afterwards (`FailureIsFinal`).
- 2n further blocks of a loss-free stream complete a frame from every state of reassembly if and only if the next
  block is not the expected one of a frame begun under a larger block count (`CompleteWithinTwoFrames`).
  `CyclicStreamCompletes` gives the exact number of reads in every state.

## Model

| member | source | states |
|---|---|---|
| Crc16.EightStepsAtOnce | include/ldcp/utility.h:17-19 | one iteration of the shift/xor loop equals eight single-bit division steps by x^16+x^12+x^5+1, for every register and byte |
| Crc16.CrcExtend | include/ldcp/utility.h:16-20 | the remainder of a prefix, divided on by the next byte's bits, is the remainder of the longer prefix |
| Crc16.EmptyChecksum | include/ldcp/utility.h:15 | the checksum of nothing is 0xFFFF |
| Crc16.PresetComplements | include/ldcp/utility.h:15-21 | for two bytes or more the checksum is the zero-preset remainder of the bits with the first 16 complemented |
| Crc16.GeneratorRemainder | include/ldcp/utility.h:17-19 | a single bit leaves 0x1021, the generator without its leading term |
| Crc16.CalculateCRC16 | include/ldcp/utility.h:12-22 | the loop returns the bit-serial remainder of every byte string: 0xFFFF for none, and for two bytes or more the zero-preset remainder with the first 16 bits complemented |
| CrcDetection.CrcIsAffine | include/ldcp/utility.h:13-22 | the xor of two equal-length inputs' checksums is the zero-preset remainder of their xor |
| CrcDetection.MergingStates | include/ldcp/utility.h:15-21 | registers that k <= 16 further bits bring together already agreed from bit k on |
| CrcDetection.DivideInjective | include/ldcp/utility.h:15-21 | equal further input never brings two different registers together |
| CrcDetection.BurstChangesRegister | include/ldcp/utility.h:13-22 | different inputs of one length whose differences fit in 16 consecutive bits, at any bit offset, leave different registers |
| CrcDetection.CrcParity | include/ldcp/utility.h:15-21 | the checksum has the bit parity of the whole input, for every length |
| CrcDetection.OddDifferences | include/ldcp/utility.h:15-21 | two inputs differ in an odd number of bits exactly when their parities differ |
| CrcDetection.DetectableChangesCrc | include/ldcp/utility.h:13-22 | a change within 16 consecutive bits, or of an odd number of bits, always changes the checksum |
| Base64.Base64Encode | include/ldcp/utility.h:29-56 | writes exactly the encoding of the input, exactly the predicted number of characters, and nothing else of the buffer |
| Base64.CalculateBase64DecodedLength | include/ldcp/utility.h:58-65 | the scan from the end counts exactly the trailing padding |
| Base64.Base64Decode | include/ldcp/utility.h:67-115 | writes exactly the decoding of the text before its first `=`, for any characters below 128, and nothing else of the buffer |
| Base64.GroupsAppend | include/ldcp/utility.h:91-105 | decoding distributes over concatenation at group boundaries |
| Base64Laws.AlphabetInOrder | include/ldcp/utility.h:31 | the 64 characters, in order, as one literal text |
| Base64Laws.NoOtherLetters | include/ldcp/utility.h:69-86 | every other character has no value |
| Base64Laws.EncodingBits | include/ldcp/utility.h:35-53 | the six bits of each letter, one after the other, are the bits of the data filled up with zeros (RFC 4648, section 4) |
| Base64Laws.UnknownCharacter | include/ldcp/utility.h:96 | a character outside the alphabet, behind a letter of its group, is read as an A that makes that letter odd |
| Base64Laws.DecodeEncode | include/ldcp/utility.h:29-115 | decoding an encoding returns the original bytes, for every input |
| Base64Laws.EncodeCanonical | include/ldcp/utility.h:29-56 | every encoding is canonical: correct padding and zero pad bits (RFC 4648, sections 3.5 and 4) |
| Base64Laws.EncodeDecode | include/ldcp/utility.h:29-115 | encoding a decoding returns the text, for every canonical text |
| Base64Laws.DecodeFourLetters | include/ldcp/utility.h:91-105 | four letters decode to their three bytes followed by the decoding of the rest, whatever it is |
| Base64Laws.DecodeLastGroup | include/ldcp/utility.h:93-112 | an unfinished group with or without its padding decodes by its letters alone |
| Base64Laws.PredictionIsExact | include/ldcp/utility.h:58-115 | for m >= 1 letters and p `=` signs the predicted length is what the decoder writes if and only if p <= 3m mod 4 |
| Base64Laws.PredictionFormula | include/ldcp/utility.h:58-65 | for any text with p `=` signs at its end, three quarters of its length less p is predicted |
| Base64Laws.CanonicalPrediction | include/ldcp/utility.h:58-115 | for non-empty canonical text the prediction is exact and the predictor's scan stops inside the text |
| Base64Laws.PredictedEncodedLength | include/ldcp/utility.h:24-65 | for a non-empty encoding the predicted decoded length is the original length |
| OobPacket.AcceptsExactly | src/transport.cpp:347-359 | a packet is accepted if and only if it has at least 16 bytes, starts with 0xFF 0xFF, and bytes 12 and 13 hold, low byte first, the checksum of the packet with zeros in their place |
| OobPacket.VerifyOobPacket | src/transport.cpp:347-359 | decides exactly that and leaves the buffer as it was |
| OobPacket.AcceptedIsEven | src/transport.cpp:351-358 | an accepted packet, checksum field included, has an even number of set bits |
| OobPacket.OddFlipsAreRejected | src/transport.cpp:351-358 | flipping any odd number of bits of an accepted packet, in any field, makes it rejected |
| OobPacket.AcceptedBurstsAreIdentical | src/transport.cpp:347-359 | accepted packets with equal checksum fields that differ only within 16 consecutive bits are identical |
| OobPacket.SealedIsAccepted | src/transport.cpp:351-358 | storing the computed checksum in the field makes any packet with the signature accepted |
| OobPacket.AcceptedIsSealed | src/transport.cpp:351-358 | no other value of the checksum field is accepted |
| InputStream.DecimalReadsBack | src/transport.cpp:341 | a count printed in decimal has that value when read |
| InputStream.NoLeadingZero | src/transport.cpp:341 | a printed count has no leading zero |
| InputStream.CountReadsBack | src/transport.cpp:266 | extracting a count from its printed form yields the count and stops at the next non-digit, stream still good |
| InputStream.NegativeCountWraps | src/transport.cpp:266-267 | a minus sign makes the extracted count wrap modulo 2^64 |
| InputStream.CharReadsBack | src/transport.cpp:266-273 | extracting a character takes exactly that character when it is not white space |
| InputStream.BytesReadBack | src/transport.cpp:271-272 | an unformatted read takes exactly the requested bytes |
| InputStream.CharExtraction | src/transport.cpp:266-273 | exactly the six white space characters are skipped in front of a character |
| InputStream.NothingToExtract | src/transport.cpp:266-267 | on white space alone extraction takes all of it and the stream goes bad |
| InputStream.CountExtraction | src/transport.cpp:266-267 | white space, a sign, and digits up to the first other character: the number, wrapped by a minus sign; 2^64 and more, and the end of the buffer, leave the stream bad |
| InputStream.NoCountExtraction | src/transport.cpp:266-267 | no digit where the number should be leaves the stream bad there |
| InputStream.HexDigitsInOrder | src/transport.cpp:301 | hexadecimal digits of both cases have their values, and upper case is printed |
| InputStream.StoiExtraction | src/transport.cpp:301 | white space, a sign, a prefix, and hexadecimal digits up to the first other character: the number if an int can hold it, otherwise an exception |
| InputStream.NoStoiExtraction | src/transport.cpp:301 | no digit where the number should be is an exception |
| FramingLaws.DeclarationReads | src/transport.cpp:266-268 | a printed `<count>:` is read as that count and a colon, whatever follows |
| FramingLaws.HeaderItemReads | src/transport.cpp:261-302 | one header in front of any bytes: where the loop goes on, with which expected checksum, and when it stops |
| FramingLaws.BodyReads | src/transport.cpp:275-307 | a framed body is parsed if and only if its checksum is the expected one and its length is 1 to 65535 |
| FramingLaws.FrameReads | src/transport.cpp:257-311 | any headers and body, with any bytes behind: the message is delivered if and only if the headers are acceptable and the last checksum header matches, and reading never passes the frame |
| FramingLaws.OneCallOneObject | src/transport.cpp:252-323 | a line that starts with `{` is delivered without a checksum and the call ends on its boundary |
| FramingLaws.OneCallOneLine | src/transport.cpp:245-323 | one call on any well-formed line, with any later bytes buffered, returns what the line holds and leaves exactly the later bytes |
| FramingLaws.OtherHeaderKeepsChecksum | src/transport.cpp:297-302 | a header with another key, at any place, does not change the expected checksum |
| FramingLaws.LinesAreSeparate | src/transport.cpp:245-323 | whatever follows such a line, a call returns what the line holds on its own and leaves what follows |
| FramingLaws.OtherHeadersAreIgnored | src/transport.cpp:261-317 | a further well-formed header anywhere changes neither what a call returns nor what it leaves, for every JSON reader and whatever follows |
| EncapsulationLaws.FrameIsEncapsulation | src/transport.cpp:325-345 | what encapsulation writes is the line with one checksum header and the payload as body |
| EncapsulationLaws.StoiReadsHexText | src/transport.cpp:301 | the printed hexadecimal checksum reads back as the same number, for all 65536 of them |
| EncapsulationLaws.ChecksumHeaderReadsBack | src/transport.cpp:298-301 | the header encapsulation writes sets the expected checksum to the payload's |
| EncapsulationLaws.FrameIsLine | src/transport.cpp:325-345 | a frame whose body is free of CR LF holds its only CR LF at its end |
| EncapsulationLaws.FrameDelivered | src/transport.cpp:276-308 | a frame is delivered if and only if the body received has the checksum of the payload sent and a permitted length |
| EncapsulationLaws.AlteredFrameDropped | src/transport.cpp:276-283 | a payload altered within 16 consecutive bits or in an odd number of bits is never delivered |
| EncapsulationLaws.FrameReadsExactly | src/transport.cpp:257-311 | exactly where the loop stops in a frame, with a right and with a wrong checksum, whatever checksum was expected before |
| EncapsulationLaws.FrameWellFormed | src/transport.cpp:325-345 | frames of unaltered objects and of detectably altered payloads meet the conditions of the delivery theorems |
| HeaderLaws.HexTextIsUpperCase | src/transport.cpp:337-339 | the checksum is printed with digits 0-9 and A-F only |
| HeaderLaws.EncapsulationText | src/transport.cpp:325-345 | the frame is, character by character, the literal text around checksum, length and payload |
| HeaderLaws.HeadersDecide | src/transport.cpp:257-308 | for any headers, told apart by their first `=`: a call delivers the body exactly when the last checksum header is its checksum and its length is 1 to 65535, and leaves exactly what follows |
| HeaderLaws.HeaderWithoutEqualsDrops | src/transport.cpp:298-299 | a header without `=`, anywhere among the others, drops the frame whatever its body and checksum |
| ParserLaws.DeliveredIsChecked | src/transport.cpp:258-308 | soundness on arbitrary bytes: a message of the framed branch was declared behind acceptable headers, its region has the last checksum, and a comma follows it |
| ParserLaws.CheckedIsDelivered | src/transport.cpp:258-308 | completeness: whatever meets those conditions is delivered |
| ParserLaws.CallsMakeProgress | src/transport.cpp:245-323 | on arbitrary bytes a call drops at least the reported line and leaves a suffix of the bytes behind it |
| ParserLaws.OverrunSwallowsFollowingFrames | src/transport.cpp:266-273 | a header that declares more bytes than are buffered swallows every complete frame behind it |
| Confinement.LoopWithin | src/transport.cpp:257-311 | where the loop on the line alone stops within it, its result and stopping place are the same whatever follows |
| Confinement.LoopResumes | src/transport.cpp:257-311 | where it does not, the loop goes on with what follows from the exact point it has reached: a count, a colon, the rest of a header text, an object or a body |
| Confinement.WithinIsSeparate | src/transport.cpp:245-323 | every line the loop stops within, whatever it holds, is parsed by one call the same whatever follows |
| Confinement.RealignsExactlyWithin | src/transport.cpp:257-317 | unless a body is declared beyond the line, a call leaves exactly what follows, whatever that is, if and only if the loop stops within the line alone |
| Confinement.BeyondRealignsUnlessChecked | src/transport.cpp:275-317 | for a body declared beyond the line and any bytes behind, exactly when a call leaves exactly those bytes |
| Confinement.UnfinishedRealignsUnlessRead | src/transport.cpp:304-317 | the same for an object that the reader has not ended within the line |
| Confinement.EmptyAndOverrunRunOut | src/transport.cpp:266-273 | on an empty line and on a header declared longer than its line the loop runs out |
| ReceiveLoop.LineLength | src/transport.cpp:193-195 | the length reported for a buffer ends at the first CR LF |
| ReceiveLoop.FirstLine | src/transport.cpp:193-195 | a buffered part of the stream that holds a CR LF holds exactly the next line at its front |
| ReceiveLoop.HandleStep | src/transport.cpp:185-199 | each call delivers the message of the next line and leaves the buffer at the line after it |
| ReceiveLoop.RunsDeliverInOrder | src/transport.cpp:185-323 | in every run over separate lines of any contents, however arrivals are cut, the messages delivered are those of the first k lines in order and the buffer starts at line k |
| ReceiveLoop.CompleteRunsDeliverAll | src/transport.cpp:185-323 | once everything has arrived and no call is pending, every line's message has been delivered and nothing is left |
| ReceiveLoop.PayloadIsSeparate | src/transport.cpp:245-345 | the frame of a payload, altered detectably or not, is a separate line that holds the payload exactly if it is intact |
| ReceiveLoop.AcceptedAreDelivered | src/transport.cpp:245-345 | a stream of encapsulated payloads, some detectably altered, among stray lines holds exactly the intact payloads and what the stray lines say |
| ReceiveLoop.AlteredFramesAreDroppedAlone | src/transport.cpp:185-323 | rejection and realignment: in every complete run exactly the altered frames are dropped and every other payload is delivered in order, with any lines the loop stops within in between |
| ReceiveLoop.FrameIsJudgedByItsChecksum | src/transport.cpp:257-317 | behind any line the loop stops within, a frame is delivered if and only if its own checksum is right |
| ReceiveLoop.ChecksumIsLostBehindEmptyLine | src/transport.cpp:266-317 | after an empty line, two calls deliver the frame's object and end on its boundary whatever its checksum |
| Misjudgment.RunningOutMisjudges | src/transport.cpp:257-317 | behind every line that the header loop runs out of, at whatever point, some frame is dropped in spite of a right checksum or delivered in spite of a wrong one |
| Misjudgment.FramesAreJudgedExactlyWithin | src/transport.cpp:245-323 | among the lines the loop stops within or runs out of, exactly the former leave every frame behind them to its own checksum |
| WritePump.FrameOfBuffers | src/transport.cpp:325-345 | the three output buffers one after the other are the frame |
| WritePump.TransmitKeepsInv | src/transport.cpp:137-155 | a request keeps the pump's invariant: buffers hold the frame of the queue's front, a write is in flight or failed exactly when the queue is non-empty |
| WritePump.CompleteKeepsInv | src/transport.cpp:201-221 | a completed write keeps it: the next frame starts only after the whole previous one is on the wire |
| WritePump.ProgressKeepsInv | src/transport.cpp:147-152 | a partial write keeps it |
| WritePump.StepKeepsInv | src/transport.cpp:137-224 | every step keeps it |
| WritePump.ExecutionKeepsInv | src/transport.cpp:137-224 | every run keeps it |
| WritePump.WireIsPrefixOfFrames | src/transport.cpp:137-224 | in every interleaving the wire holds a prefix of the requested frames, in request order, never interleaved |
| WritePump.IdlePumpWroteEverything | src/transport.cpp:201-221 | with an empty queue every requested frame is on the wire, whole |
| WritePump.FailureIsFinal | src/transport.cpp:201-224 | after a failed write requests are queued and nothing more is written |
| Link.LinesOnTheWire | src/transport.cpp:325-345 | the frames the pump writes are the lines the receive loop is about |
| Link.DeliveredIsPrefixOfRequested | src/transport.cpp:137-345 | any run of the pump joined with any run of the receive loop on its wire delivers a prefix of the requests, in order |
| Link.IdleLinkDeliveredEverything | src/transport.cpp:137-345 | when the pump is idle and everything arrived was handled, exactly the requests were delivered |
| Transport.NetworkTransport.constructor | src/transport.cpp:59-64 | a new transport is in the initial state of both step machines |
| Transport.NetworkTransport.ParseIncomingMessage | src/transport.cpp:245-323 | consumes the buffer in place and returns the message as specified |
| Transport.NetworkTransport.ReadFramedMessage | src/transport.cpp:257-311 | the header loop ends on every input, and where and with what |
| Transport.NetworkTransport.IncomingMessageHandler | src/transport.cpp:185-199 | performs the receive loop's step |
| Transport.NetworkTransport.EncapsulateOutgoingMessage | src/transport.cpp:325-345 | appends to the three buffers, the checksum and length taken over all of the main buffer |
| Transport.NetworkTransport.TransmitMessage | src/transport.cpp:137-155 | performs the pump's request step |
| Transport.NetworkTransport.OutgoingMessageHandler | src/transport.cpp:201-224 | performs the pump's completion or failure step |
| ResponseMatching.RemoveStale | src/session.cpp:93-95 | the algorithm of remove_if leaves survivors in order in front, and behind them stale or moved-from elements |
| ResponseMatching.RemoveIfKeepsNewer | src/session.cpp:93-95 | the call keeps the queue's length and moves exactly the documents of ids not below the current one to the front, in order |
| ResponseMatching.SecondEntryIsLeftMovedFrom | src/session.cpp:93-95 | without erase, a second entry would end up in front with a moved-from element behind it |
| ResponseMatching.AtMostOneEntryIsUntouched | src/session.cpp:93-95 | on a queue of at most one entry the call changes nothing |
| ResponseMatching.WaitLeavesQueue | src/session.cpp:92-97 | in every reachable state evaluating the wait's predicate changes nothing and tests the front for the current id |
| ResponseMatching.StepKeepsInv | src/session.cpp:47-171 | every step keeps: while a command waits its id stays the current one; outcomes belong to the requests in order; ids 0, 1, 2 once each; at most one queued response, of an id not beyond the current one |
| ResponseMatching.RequestsAreTheEvents | src/session.cpp:77-90 | the id of a request is the number of requests before it in the run |
| ResponseMatching.RunsMatchResponses | src/session.cpp:47-171 | in every run the k-th outcome belongs to the k-th waiting request, and with no_error the response carries the id that request went out under; no id is used twice over the session's life |
| ResponseMatching.WithoutMutexResponsesAreSwapped | src/session.cpp:79-97 | an id issued while a command waits, which the command mutex prevents, would make it return the other request's response |
| ResponseMatching.StepRefines | src/session.cpp:79-105 | each step acts on the queue as on a one-slot mailbox for the pending request |
| ResponseMatching.QueueIsAMailbox | src/session.cpp:77-171 | in every run ids, outcomes and what a waiter sees are those of the one-slot mailbox |
| ResponseMatching.LostExactlyByClosing | src/session.cpp:47-55 | a queued answer is gone if and only if the session was closed and no answer came after that |
| ResponseMatching.AnswerStaysUntilTaken | src/session.cpp:47-170 | from the queueing of an answer to the next wake-up or timeout, through any receipts, closings and reopenings, the queue holds exactly the surviving answer, and even a timeout returns it |
| ResponseMatching.CommandsEndAsAnswered | src/session.cpp:84-130 | in every run each command ends as the events since its request say: with the last version-2.0 message of its id that has a result or an error and was not lost to closing, as its result or its error, or timed out if and only if there is none |
| ResponseMatching.EndingLeavesQueue | src/session.cpp:98-129 | a result is taken out of the queue, an error is left in it, and a timeout changes nothing |
| ScanQueues.PushAccounts | src/session.cpp:174-187 | an arrival at a full queue displaces its oldest item, the 32nd before it; no other arrival settles a fate |
| ScanQueues.PopAccounts | src/session.cpp:144-151 | a poll takes the oldest item and settles only its fate |
| ScanQueues.ClearAccounts | src/session.cpp:55-57 | closing drops exactly the items queued at that event |
| ScanQueues.StepAccounts | src/session.cpp:137-189 | every step keeps both queues accounted for, and the fates it settles are its own |
| ScanQueues.EveryItemIsAccountedFor | src/session.cpp:137-189 | in every run one assignment of fates to event positions explains both queues at every point: what is queued is what arrived and has no fate yet, at most 32; taken at a poll, displaced at the 32nd later arrival, or dropped at a close |
| ScanQueues.LostOnlyToLaterArrivals | src/session.cpp:172-189 | in a run without closing every lost item of either queue was displaced by the 32nd arrival after it |
| ScanQueues.KeepingUpLosesNothing | src/session.cpp:137-189 | if no item arrives at a full queue and the session stays open, arrivals are what was taken followed by what is queued |
| ScanQueues.PollRemovesWhatItReturns | src/session.cpp:144-155 | a poll returns what it removes: the oldest notification if there is one, else the oldest packet, else it times out and changes nothing |
| ScanQueues.ResultsAreTaken | src/session.cpp:137-156 | in every run, transports mixed, the polls' results are, transport by transport, what was taken, in order |
| ScanQueues.NothingSurvivesClosing | src/session.cpp:55-57 | closing empties both queues, and every item that had arrived has met its fate |
| Reception.ArrivalsAreScans | src/session.cpp:158-189 | in every run the arrivals are, in order, exactly the received messages of version 2.0 with the laser scan method, params and no id, and the received packets |
| Reception.RunOfQueues | src/session.cpp:137-189 | what is received, polled and closed is a run of the two queues, other messages left out |
| Session.Session.constructor | src/session.cpp:19-23 | a new session is in the initial state of both step machines |
| Session.Session.Open | src/session.cpp:30-45 | a successful open keeps id and queues |
| Session.Session.Close | src/session.cpp:47-58 | clears all three queues and keeps the id |
| Session.Session.ExecuteCommand | src/session.cpp:77-82 | uses the next id and waits for nothing |
| Session.Session.BeginCommand | src/session.cpp:86-90 | uses the next id and starts waiting |
| Session.Session.EvaluateWait | src/session.cpp:92-97 | performs the wait's predicate, with its effect on the queue |
| Session.Session.ContinueCommand | src/session.cpp:92-129 | performs a wake-up or a timeout: a result is taken, an error is returned and left queued, or the command times out |
| Session.Session.OnMessageReceived | src/session.cpp:158-180 | performs the step of a received message on response queue and primary scan queue |
| Session.Session.OnOobPacketReceived | src/session.cpp:182-189 | performs the step of a received packet |
| Session.Session.PollForScanBlock | src/session.cpp:137-156 | returns and removes the front of the primary queue, else of the out-of-band queue, else times out |
| ScanBlocks.OnlyTheDecodingWhenExact | src/device.cpp:260-263 | the bytes taken from the decode buffer are the decoding if and only if its length was predicted exactly |
| ScanBlocks.RangesShowThrough | src/device.cpp:257-278 | where the intensities are decoded shorter than predicted, bytes of the ranges follow them |
| ScanBlocks.ZerosShowThrough | src/device.cpp:257-265 | where the ranges are decoded shorter than predicted, zeros follow them |
| ScanBlocks.DecodeText | src/device.cpp:260-263 | the buffer, grown with zeros to the predicted length when shorter, starts with the decoding and keeps what it held behind it |
| ScanBlocks.CopyWords | src/device.cpp:265-267 | the ranges are the little-endian words of the decoded bytes |
| ScanBlocks.CopyBytes | src/device.cpp:275-277 | the intensities are the decoded bytes |
| ScanBlocks.ReadLayer | src/device.cpp:257-278 | ranges are words and intensities bytes of the shared decode buffer, for every text whose decoding is no longer than predicted; a null member keeps the old values |
| ScanBlocks.ReadPacket | src/device.cpp:281-308 | all samples come from their place behind the header, in both intensity widths |
| ScanBlocks.ReadScanBlock | src/device.cpp:239-313 | the block after a notification with any number of layers, some null, or after a packet |
| ScanTransports.WordsOfLittleEndian | src/device.cpp:265-267 | 16-bit words sent low byte first are read back |
| ScanTransports.HeaderFields | include/ldcp/data_types.h:47-67 | the header bytes of a packet yield its fields when read |
| ScanTransports.PacketDecodes | src/device.cpp:281-308 | a sealed packet passes verification and decodes to what was sent, in both widths and fields of view |
| ScanTransports.AcceptedMayBeTruncated | src/transport.cpp:347-359 | a sealed header alone is accepted although the samples it announces are missing |
| ScanTransports.WidePacketDecodes | src/device.cpp:302-307 | 16-bit intensities come back as sent |
| ScanTransports.NotificationDecodes | src/device.cpp:246-279 | a notification of Base64 text decodes to what was sent, whatever the block held before, within the decode buffer |
| ScanTransports.TransportsAgree | src/device.cpp:246-309 | the same data sent as a notification and as a packet is decoded to identical blocks |
| ScanNotifications.NotificationRoundTrip | src/device.cpp:246-279 | for any layers, null ones and null members included: layer i of the block is what was sent as layer i, and what was not sent stays as layer i was; the timestamp is congruent modulo 2^32 |
| ScanNotifications.LengthFollows | src/device.cpp:264 | the block length is that of the last layer with ranges, or as before when there is none |
| ScanFrames.CopySamples | src/device.cpp:225-230 | copies the samples to their place and keeps every other element |
| ScanFrames.FillBlock | src/device.cpp:225-230 | after each block the frame holds the samples of all blocks so far, in order |
| ScanFrames.AddBlock | src/device.cpp:214-230 | block 0 sets count, length and size of the frame, and every block adds its samples behind those of the blocks before |
| ScanFrames.ReadScanFrame | src/device.cpp:198-237 | ends on every stream; returns the frame of the specified window after the specified number of reads, or fails exactly when a read fails first |
| ScanFrames.NextBlockHasSamples | src/device.cpp:209-230 | what the loop copies from the next block is there if every block has the samples its own window's first block declares |
| ScanFrames.CompleteIsTail | src/device.cpp:202-234 | from any state the window in progress is the tail of the blocks read |
| ScanFrames.FrameIsLastBlocksRead | src/device.cpp:198-237 | however lossy the stream, a returned frame is the last n blocks read in order, with indices exactly 0 to n-1, n being the count of the first |
| ScanFrames.EndsAtFirstFailure | src/device.cpp:205-207 | a call ends at the first failed read unless a frame is complete before it |
| ScanFrames.FrameSamples | src/device.cpp:214-230 | sample i of block k stands at place k * length + i of the frame, there are no others, and timestamp and field of view are the first block's |
| ScanFrames.CyclicStreamCompletes | src/device.cpp:202-234 | from any state, whatever count the frame in progress began under, a loss-free stream completes a frame after exactly the stated number of reads, and fails when it is shorter |
| ScanFrames.CompleteWithinTwoFrames | src/device.cpp:202-234 | 2n further blocks complete a frame if and only if the next block is not the expected one of a frame begun under a larger count |
| ScanFrames.FreshReadsBounds | src/device.cpp:202-234 | a fresh call needs n to 2n-1 reads, exactly n from block 0 |
| ScanFrames.NextFrame | src/device.cpp:198-237 | a call anywhere in a loss-free stream skips to the next block 0 and returns exactly the n blocks from there |
| ScanFrames.ConsecutiveFrames | src/device.cpp:198-237 | m calls on a loss-free stream return the next m frames, none skipped and none repeated |
| ScanPath.CarriedDecodes | src/device.cpp:239-313 | a sector decodes to its block whichever transport carries it and whatever the block held before |
| ScanPath.ReadIsSent | src/device.cpp:239-313 | successive reads into one reused block yield exactly the blocks sent, transports mixed at will |
| ScanPath.SentIsCyclic | src/device.cpp:209-232 | scans sent one after the other form a loss-free cyclic stream from every block on |
| ScanPath.EndOfScanIsBoundary | src/device.cpp:202-234 | a call ends at the end of a scan, and the next one ends exactly n reads later |
| ScanPath.ScanIsReadWhole | src/device.cpp:198-313 | a call at any block polled returns the scan that begins there or next, after the stated number of reads, with all ranges and intensities that were sent, in order, and the first block's timestamp and field of view |
| ScanPath.PolledPackets | src/session.cpp:137-189 | with packets alone and a reader that keeps up, what is polled followed by what is queued is what arrives, in order |
| ScanPath.PolledNotifications | src/session.cpp:137-180 | the same with notifications alone |
| ScanPath.CarriedPacketsAreAccepted | src/transport.cpp:347-359 | every packet that carries a sector passes verification |
| ScanPath.PolledAreArriving | src/session.cpp:137-189 | over one transport, a reader that keeps up polls what is received, in order, none left out |
| ScanPath.ReceivedScansAreRead | src/device.cpp:198-313 | from reception to frame: of scans that are received over one transport, among any other messages, by a reader that keeps up, a call at any polled block returns the scan that begins there or next, whole |

## Left out

- JSON reading and writing: bodies are byte strings, and session messages keep only the members the session looks at. That a compact writer emits no CR LF is a hypothesis of the delivery theorems.
- Sockets, connecting and disconnecting, UDP binding, the sender address check of oobPacketHandler, null callbacks, thread start and join: only "bytes arrived", "write progressed, completed or failed" remain, as steps. A connect that fails leaves the session as it was and is no step.
- JSON-RPC error codes: an error response is one outcome, not mapped to the library's error values.
- Wall-clock time: a timeout is a step that may happen whenever a command waits.
- Data races: each section is atomic. In particular the id is incremented in one step although executeCommand without a response does not hold the response mutex.
- Overflow of the request id and of `int` lengths, and ids that are floating-point numbers equal to an integer (they count as different from every integer).
- Base64.Base64Decode: requires characters below 128, because the source indexes its table with a possibly negative `char`.
- Base64.CalculateBase64DecodedLength: requires a character other than `=`, because the source otherwise reads before the text.
- ScanBlocks.ReadScanBlock: requires text with a positive predicted length that its decoding does not exceed, and packets as long as their header announces, because the source otherwise indexes an empty vector or reads or writes outside its buffers. `CanonicalPrediction` gives the first for non-empty canonical text.
- ScanFrames.ReadScanFrame: says nothing about the frame's contents when a read fails (the source leaves it half overwritten), reads from a given list of blocks in place of the session's queues, and requires each block to hold as many samples as the first block of its window declares, because the source otherwise reads outside its vectors.
- ScanPath.ScanIsReadWhole: is about blocks in the order in which they are polled. Only over one transport is that the order of arrival (`ReceivedScansAreRead`); the two queues keep no order between transports. A poll that times out fails the call it happens in; the next call starts afresh where polling goes on.
- Misjudgment.FramesAreJudgedExactlyWithin: leaves out lines that end in an unfinished object or in a body declared beyond them, where the frame behind may or may not be misjudged, depending on the JSON reader and on the checksum of what follows.
- Copying a message or packet from object to object: values stand for `std::move`, except in `RemoveStale`, where the moved-from elements matter.
- Layers of a scan frame beyond the first, which the source never fills.
- The query, setting, start, stop and firmware commands, device discovery, the device list and location comparison: each builds one request, reads one field or compares fields.
