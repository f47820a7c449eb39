# Four networked programs, modelled and proved

This project models the four programs of the repository that carry real protocol
logic, and proves what they promise over every input and every run:

- **The TFTP server** (MP3): the read-request handler, a stop-and-wait sender, and the
  write-request handler, a stop-and-wait receiver that spools what it accepts into a file.
  Both are modelled as methods with loops (`ServeRead`, `ServeWrite`) proved against step
  functions, and the step functions are composed over two networks: one that loses,
  duplicates and reorders packets, and one that loses and duplicates but keeps order.
- **The netascii stream buffers** (MP3): two one-lookahead translators, as classes whose
  methods are proved against one-shot encoding and decoding functions.
- **The SBCP chat server and its message codec** (MP2 and libsbcp): the event loop with its
  three collections and its broadcasts, the message buffer that is changed in place and
  walked by offset, and the recursive attribute parser of the Elixir client.
- **The HTTP message library and the caching proxy** (libhttp and MP4): the parser built on
  string search with wrapping 64-bit positions, the printer, and the ten-entry cache.

Standards referred to: RFC 1350 and section 4.2.3.1 of RFC 1123 (TFTP), RFC 854 (NVT line
rules), RFC 1945 (HTTP/1.0).

## Files

| files | content |
|---|---|
| `Sequences.dfy` | what slicing does to concatenations |
| `Netascii.dfy`, `NetasciiStreams.dfy` | the codec as functions with its laws; the two stream buffers |
| `Tftp.dfy`, `TftpSenderRuns.dfy` | packets, the sender, what every sender run writes |
| `TftpReceiver.dfy`, `TftpReceiverRuns.dfy`, `TftpSpool.dfy` | the receiver, what it answers and when it stops, the write-back through the string stream |
| `TftpTransfer.dfy`, `TftpOrdered.dfy`, `TftpLimits.dfy`, `TftpEndToEnd.dfy` | both sides and a network; the exact limits; file to file |
| `Sbcp.dfy`, `SbcpElixir.dfy`, `SbcpBuffer.dfy`, `SbcpMessages.dfy` | the codec on values, the Elixir parser, the buffer in place, the builders |
| `SbcpLog.dfy`, `SbcpServer.dfy`, `SbcpServerRuns.dfy`, `SbcpGuarantees.dfy`, `SbcpInputs.dfy` | the global log, the event loop, its invariant, the promises, what each input does |
| `HttpText.dfy`, `HttpLines.dfy` | searching and slicing, URIs, first lines |
| `HttpScan.dfy`, `HttpMessage.dfy`, `HttpShapes.dfy` | the header loop for any way of parsing lines, whole messages, lines of every shape |
| `ProxyCache.dfy`, `ProxyRuns.dfy` | the cache and runs of requests, what it serves and what it throws out |

## Where the code departs from what one would expect

Each of these is kept as the code has it, and the exact condition is proved.

- An interrupted `select` in the sender (MP3/src/tftp_server.cpp:81) drops the block that was
  in flight and sends the next bytes under the same number. `DeliveryExactly` shows that no
  non-empty file survives if this can happen.
- Block numbers have 16 bits. Over a reordering network delivery can be relied on for
  streams of fewer than 65535 full blocks and no longer (`DeliveryExactly`); prefix safety
  holds for one block more (`PrefixExactly`). Over an order-keeping network there is no limit.
- An empty file sends no DATA packet at all (MP3/src/tftp_server.cpp:55).
- In netascii mode the 257 bytes held back are meant to keep the decoder from reading past
  the end. They do not when a pending stretch holds more than 257 CR pairs: the string
  stream then fails in mid-transfer (`SpoilsExactly`), stale bytes of the packet buffer are
  written and the closing block is lost (`SpoiledFile`, `DamagedExactly`), and ordinary text
  with many empty lines is enough (`LineEndsSpoil`).
- Encoding netascii maps LF and CRLF to the same bytes, so the round trip is exact only for
  texts without CRLF (`ExactRoundTrip`).
- ACK lists all users. With 52 users or more admitted, an acknowledgement can exceed the
  payload limit, the exception is not caught and the server goes down (`StaysUpExactly`).
- `add_attribute` checks the limit of the message's type before the addition and not after it,
  so attributes can be added without an exception and then not be iterated over: exactly when
  they exceed that limit (`AddedThenIterated`). A JOIN that is given two names is one
  (`JoinTakesTwoNames`).
- An IDLE that arrives with attributes of its own can outgrow its limit when the sender's name
  is added, and its readers then reject it (`IdleRelayed`, `QueueReadsBack`).
- The Elixir client writes a text's length in 16 bits, so texts of 65536 bytes or more are not
  read back (`SerializeRoundTrip`).
- `operator[]` on a message without attributes reports an invalid attribute and not an index
  out of range (`IndexAgreesWithWalk`).
- The header loop of the HTTP parser never ends on some texts without a blank line, because
  stepping over a line end that was not found wraps to position 1; `EndsExactly` says on which,
  and `RequestLoopsForever` shows one.
- A text without a blank line is nevertheless parsed when its first line is a single character,
  because the wrap then meets that line's end (`ParsedOnlyByWrap`, `DigitExample`).
- A request line without a version is read as its own version, so the simple request of older
  clients fails (`RequestWithoutVersion`, `SimpleRequestFails`).
- Fetching a page anew that is already in a full cache can leave the cache with nine entries
  (`HandleSize`).
- A URI whose first colon lies in its fragment is printed with the fragment twice
  (`HttpUri.PrintParsed`).
- The cache makes room when it holds ten entries, although the comment beside it says eleven
  (MP4/src/http_proxy.cpp:231-232), and `emplace` never replaces an entry: a fetched answer is
  stored only in the cases of `FetchedBecomesEntry`, a stale entry stays stale
  (`StaleStaysStale`), and a client can be given a page that the origin has since replaced
  (`StaleRunHappens`).

## Model

| member | source | states |
|---|---|---|
| Netascii.DecodeEncode | MP3/src/netascii.hpp:20-101 | for every byte string, decoding its encoding gives the string with each CRLF collapsed to LF |
| Netascii.SameEncoding | MP3/src/netascii.hpp:32-48 | two strings have the same encoding exactly when their collapsed forms are equal |
| Netascii.ExactRoundTrip | MP3/src/netascii.hpp:20-101 | the round trip is the identity exactly for strings without CRLF |
| Netascii.EncodeShape | MP3/src/netascii.hpp:32-48 | in encoded text every CR is followed by LF or NUL, every LF is preceded by CR, and the length is between one and two times the original's |
| Netascii.EncodingImage | MP3/src/netascii.hpp:32-48 | the strings obeying those line rules are exactly the possible encodings |
| Netascii.DecodeUndoesQuote | MP3/src/netascii.hpp:85-96 | decoding undoes the symbol-by-symbol code that encoding applies to collapsed text |
| Netascii.EncodeQuotesCollapse | MP3/src/netascii.hpp:32-48 | the one-lookahead encoder is a code without lookahead applied to the collapsed text |
| Netascii.DecodeSplit | MP3/src/netascii.hpp:73-101 | decoding may be cut after any number of decoded bytes and resumed at the raw byte reached |
| Netascii.DecodeExtend | MP3/src/netascii.hpp:85-96 | what is decoded without looking past the end does not depend on what arrives later |
| Netascii.ReadReachesEnd | MP3/src/netascii.hpp:78-96 | asking for all but k of the raw bytes runs past the end exactly when more than k of them go into pairs, or just k and a bare CR comes last |
| Netascii.DecodeUnits | MP3/src/netascii.hpp:85-96 | a single byte stands for itself, CR LF for LF, CR NUL for CR, and a CR before any other byte for itself |
| Netascii.DecodeConcat | MP3/src/netascii.hpp:73-101 | wherever no pair straddles the cut, decoding goes piece by piece |
| Netascii.EncodeUnits | MP3/src/netascii.hpp:32-48 | what LF, CRLF, a lone CR and every other byte are encoded as |
| Netascii.EncodeConcat | MP3/src/netascii.hpp:20-53 | wherever no CRLF is cut in two, encoding goes piece by piece |
| Netascii.PlainText | MP3/src/netascii.hpp:20-101 | text without CR is its own decoding, text without CR and LF its own encoding |
| NetasciiStreams.Encoder.Underflow | MP3/src/netascii.hpp:20-53 | refilling the two-byte buffer changes nothing of what the stream will still hand out, and reports the end exactly when that is nothing |
| NetasciiStreams.Encoder.Read | MP3/src/netascii.hpp:20-53 | a read returns the next n bytes of the one-shot encoding, pairs straddling the boundary included |
| NetasciiStreams.Encoder.ReadPieces | MP3/src/tftp_server.cpp:51-58 | for every list of read sizes the pieces are consecutive slices of the one-shot encoding, short only at its end |
| NetasciiStreams.Decoder.Underflow | MP3/src/netascii.hpp:73-101 | one decoded byte, the raw bytes it takes, and when the underlying stream loses its good state |
| NetasciiStreams.Decoder.Read | MP3/src/netascii.hpp:73-101 | n decoded bytes are the start of the one-shot decoding, the position moves past exactly the raw bytes behind them, and the stream stays good unless the decoder looked past the end |
| NetasciiStreams.Decoder.ReadAll | MP3/src/tftp_server.cpp:209-210 | streaming out the buffer yields the decoding of everything left |
| TftpSender.AwaitAck | MP3/src/tftp_server.cpp:68-108 | the wait loop gets as far through the reports, with the timeouts counted, as the wait function says |
| TftpSender.WaitRuns | MP3/src/tftp_server.cpp:68-108 | a wait swallows every acknowledgement of another block without a send and ends in the state and at the report that the step function gives |
| TftpSender.ServeFile | MP3/src/tftp_server.cpp:43-115 | the loop of reads, writes and waits over an open file produces the packets and the final phase of the step functions |
| TftpSender.OpenFile.Read | MP3/src/tftp_server.cpp:34-53 | reads in either mode hand out the file, or its encoding, in consecutive slices |
| TftpSender.ServeRead | MP3/src/tftp_server.cpp:26-116 | for every list of reports, interrupted waits included, the handler writes the packets and ends in the phase that the step functions give |
| TftpSender.StepAt | MP3/src/tftp_server.cpp:49-108 | everything one uninterrupted report does to a sender waiting for block k: which block it then waits for, what it writes, and exactly when it gives up, finishes or aborts |
| TftpSenderRuns.SentInOrder | MP3/src/tftp_server.cpp:43-109 | every uninterrupted run writes the blocks in order, repeating but never skipping, finishes only after the last, and in every phase the number of writes is the index of the last block plus the timeouts that did not end the run |
| TftpSenderRuns.NoAmplification | MP3/src/tftp_server.cpp:49-108 | one list of block indices accounts for all packets written: exactly the blocks 1 to n occur in it, in order, and all but n of the packets are resends after timeouts that did not end the run; resends number at most 4(R+1) for R packets received, and n is at most R+1 |
| TftpSenderRuns.OtherAckIsSilent | MP3/src/tftp_server.cpp:103-107 | an acknowledgement of another block never causes a send |
| TftpSenderRuns.EmptyStreamIsSilent | MP3/src/tftp_server.cpp:51-57 | for an empty stream the handler finishes at once and never writes |
| TftpSenderRuns.GivesUpAtFifthTimeout | MP3/src/tftp_server.cpp:13-94 | the sender gives up when five timeouts have come in a row, interruptions between them not counted, and at no other moment |
| TftpSenderRuns.InterruptedSkips | MP3/src/tftp_server.cpp:51-82 | an interrupted wait for block k sends the bytes of block k + 1 under the number of block k, or ends the transfer after the last block |
| TftpReceiver.StepKeepsValid | MP3/src/tftp_server.cpp:147-208 | every report keeps the block counter equal to the wrapped number of accepted blocks; a payload is accepted exactly when it carries the next number, and any answer acknowledges the number accepted |
| TftpReceiver.RunValid | MP3/src/tftp_server.cpp:145-208 | that invariant holds after every list of reports |
| TftpReceiverRuns.Answers | MP3/src/tftp_server.cpp:165-194 | a listening handler answers exactly the timeouts and the DATA packets, a repeated or foreign block included, with the number of blocks accepted by then |
| TftpReceiverRuns.NextPhase | MP3/src/tftp_server.cpp:147-208 | exactly which report completes, aborts or gives up the transfer, and what it does to the count of timeouts: every packet resets it, an interruption leaves it |
| TftpReceiverRuns.AcksCounted | MP3/src/tftp_server.cpp:142-208 | in every run the acknowledgements are one for the start, ACK 0, and one for every timeout and DATA packet handled |
| TftpReceiverRuns.EachAckTells | MP3/src/tftp_server.cpp:165-194 | each acknowledgement names the number of blocks accepted when it is written, and nothing is written once the handler has stopped |
| TftpReceiverRuns.RepeatedBlock | MP3/src/tftp_server.cpp:182-187 | a block that arrives twice is acknowledged twice and accepted once |
| TftpReceiverRuns.GivesUpAtFifthTimeout | MP3/src/tftp_server.cpp:13-172 | the receiver gives up when five timeouts have come in a row, interruptions not counted, and at no other moment |
| TftpReceiverRuns.StoppedForGood | MP3/src/tftp_server.cpp:147-208 | a handler that has stopped stays as it is and writes nothing more |
| TftpWrite.ServeWrite | MP3/src/tftp_server.cpp:142-216 | the handler writes the acknowledgements of the step functions, and its file is the finished spool of what it accepted, also after a read that met the end; only when a further full block then asks for a negative number of bytes is the file left open |
| TftpSpool.SpoolFile.Append | MP3/src/tftp_server.cpp:188-206 | taking in a payload gives the state of the spool function: all but 257 bytes written back after a full block, with stale packet bytes if the read came up short, and nothing taken in any more once the stream has failed |
| TftpSpool.SpoolFile.Flush | MP3/src/tftp_server.cpp:209-210 | whatever is left of the spool reaches the file, decoded in netascii mode; nothing if the stream has failed |
| TftpSpool.OctetConserves | MP3/src/tftp_server.cpp:189-206 | octet mode: written plus pending bytes are always the accepted bytes |
| TftpSpool.OctetHoldsBack | MP3/src/tftp_server.cpp:174-206 | octet mode: exactly 257 bytes are pending after every full block, and reads are of 255 bytes, then of 512, within the 516-byte buffer |
| TftpSpool.NetasciiConserves | MP3/src/tftp_server.cpp:189-206 | netascii mode: written bytes plus the decoding of the pending ones and of anything still to come are the decoding of everything accepted |
| TftpSpool.NetasciiPending | MP3/src/tftp_server.cpp:201-206 | after full blocks at most 257 bytes are pending, and they are the tail of what was accepted |
| TftpSpool.FewPairsNeverSpoil | MP3/src/tftp_server.cpp:201-206 | if no 769-byte window holds more than 256 CR pairs, no mid-transfer read meets the end, and 1 to 257 bytes stay pending after every full block |
| TftpSpool.SpoilsExactly | MP3/src/tftp_server.cpp:201-206 | a block spoils the spool exactly when more than 257 pairs are pending with it, or 257 and a bare CR comes last |
| TftpSpool.SpoiledFile | MP3/src/tftp_server.cpp:189-210 | the file of a transfer whose read met the end: the decoding of all full blocks, then as many stale bytes of the packet as there are pairs beyond 257, and nothing of the closing block |
| TftpSpool.StaleIsPayload | MP3/src/tftp_server.cpp:174-205 | the stale bytes are bytes of the block's payload, four places behind where they are written |
| TftpSpool.DeadThenFull | MP3/src/tftp_server.cpp:196-205 | after that exactly a full block leaves the handler without a defined meaning, and nothing more reaches the file |
| TftpSpool.DamagedExactly | MP3/src/tftp_server.cpp:189-210 | closed by an empty block, that file is right if and only if exactly 257 pairs were pending |
| TftpSpool.LineEndsSpoil | MP3/src/tftp_server.cpp:201-210 | a family of two-block texts, line ends at the close of one block and a block of line ends after it, that spoil a transfer and leave a file other than their decoding |
| TftpSpool.FinalFileIsMeaning | MP3/src/tftp_server.cpp:189-210 | the finished file is the accepted stream, or in netascii mode its one-shot decoding whenever no read met the end, which sparse pairs guarantee |
| TftpReordering.PrefixSafety | MP3/src/tftp_server.cpp:43-208 | network that loses, duplicates and reorders, streams below 65536 full blocks: the accepted bytes are a prefix of the stream in every reachable state |
| TftpReordering.Delivery | MP3/src/tftp_server.cpp:51-199 | same network, below 65535 full blocks: a sender that has finished leaves a receiver that has completed with the whole stream, multiples of 512 included |
| TftpReordering.Invariant | MP3/src/tftp_server.cpp:43-208 | every run keeps sender and receiver within one block of each other and every packet in the network a genuine block or acknowledgement of the past |
| TftpOrdered.SafeAtAnyLength | MP3/src/tftp_server.cpp:104-207 | order-keeping network that loses and duplicates: prefix safety and delivery for streams of any length, although block numbers wrap |
| TftpOrdered.InFlightIsNear | MP3/src/tftp_server.cpp:104-207 | in every such run all data and acknowledgements in flight are within one of the sender's true block index |
| TftpOrdered.Invariant | MP3/src/tftp_server.cpp:43-208 | data in flight lies, in order, between the accepted count and the sender's index, and acknowledgements between that index less one and the accepted count |
| TftpLimits.TransferCanComplete | MP3/src/tftp_server.cpp:43-208 | for every stream some run ends with the sender finished and the file delivered |
| TftpLimits.DeliveryExactly | MP3/src/tftp_server.cpp:79-108 | over the reordering network a finished sender may rely on delivery if and only if the stream is below 65535 full blocks and waits are not interrupted (or the stream is empty) |
| TftpLimits.PrefixExactly | MP3/src/tftp_server.cpp:104-207 | prefix safety holds for all streams of a length if and only if that length is below 65536 full blocks |
| TftpLimits.TooLongToDeliver | MP3/src/tftp_server.cpp:104-108 | a run, for every stream of at least 65535 full blocks, in which the sender finishes while the receiver still waits |
| TftpLimits.Drain | MP3/src/tftp_server.cpp:79-82 | interrupted waits alone drive the sender through the whole stream while the receiver gets nothing |
| TftpEndToEnd.FileArrivesInOrder | MP3/src/tftp_server.cpp:26-216 | file to file over the order-keeping network: no read met the end, and the finished spool is the same bytes in octet mode, the text with CRLF collapsed in netascii mode with sparse pairs |
| TftpEndToEnd.ReceiverInOrder | MP3/src/tftp_server.cpp:145-208 | the receiver of any such network run is the write handler run on its own reports |
| TftpEndToEnd.ReceiveInOrder | MP3/src/tftp_server.cpp:118-216 | the write handler, given the reports of a run in which the sender has finished, leaves that file |
| TftpEndToEnd.FileArrivesReordered | MP3/src/tftp_server.cpp:26-216 | the same over the reordering network below 65535 full blocks |
| TftpEndToEnd.ReceiveReordered | MP3/src/tftp_server.cpp:118-216 | the same of the write handler itself over the reordering network |
| Sbcp.HeaderRoundTrip | libsbcp/include/sbcp/sbcp.hpp:107-133 | packing nine bits of version and seven of type loses nothing, and changing the type keeps the version |
| Sbcp.OnTheWire | libsbcp/include/sbcp/sbcp.hpp:25-133 | a message with one attribute, byte by byte: version 3 and type, length, attribute type little-endian, its length, its value |
| Sbcp.ValuesFit | libsbcp/src/sbcp.cpp:53-79 | exactly which lengths each type of attribute may have, in bytes |
| Sbcp.HeadersFit | libsbcp/src/sbcp.cpp:117-181 | exactly which version, types and lengths a header may have, in numbers |
| Sbcp.AddAllEncodes | libsbcp/src/sbcp.cpp:183-190 | however attributes were added without an exception, the payload is their encoding in order, at most 1024 bytes |
| Sbcp.AddAllExactly | libsbcp/src/sbcp.cpp:183-190 | additions to a new message go through exactly when all but the last fit the type's limit and all of them fit the buffer |
| Sbcp.WalkExactly | libsbcp/include/sbcp/sbcp.hpp:198-214 | stepping the offset iterator returns a list, ending exactly at the end offset, if and only if the payload is the encoding of that list and every attribute is valid |
| Sbcp.DecodedExactly | libsbcp/include/sbcp/sbcp.hpp:190-229 | iterating over a message, header validation included, yields a list if and only if the header validates and the payload is the encoding of that list of valid attributes |
| Sbcp.AddedThenIterated | libsbcp/src/sbcp.cpp:117-190 | valid attributes that were added without an exception are iterated over as they were added if and only if they fit the limit of the type; otherwise iterating throws |
| Sbcp.JoinTakesTwoNames | libsbcp/src/sbcp.cpp:122-190 | a JOIN takes two names of more than six bytes without an exception and then throws when iterated over |
| Sbcp.IndexAgreesWithWalk | libsbcp/src/sbcp.cpp:297-310 | `operator[]` agrees with the walk at every index, and what it throws beyond the end |
| Sbcp.FramingRoundTrip | MP2/src/sbcp_server.cpp:31-47 | reading the concatenated bytes of any validated messages gives back the same messages |
| Sbcp.FramingExactly | MP2/src/sbcp_server.cpp:31-47 | a stream is read as a list of messages if and only if it is those messages back to back and all of them validate |
| Sbcp.BadHeaderStops | MP2/src/sbcp_server.cpp:37-42 | a header that does not validate is where reading stops with an error |
| Sbcp.MessageRoundTrip | libsbcp/src/sbcp.cpp:117-190 | a well-formed message validates and is recovered from its bytes |
| SbcpElixir.ParsersCompared | MP2/lib/sbcp.ex:117-145 | on every payload that fits the buffer, the recursive parser and the offset iterator give the same list exactly when every attribute is within its length limit, and what the first rejects the second rejects |
| SbcpElixir.DeserializeEncoded | MP2/lib/sbcp.ex:123-145 | the recursive parser recovers every encoded list of attributes of known types |
| SbcpElixir.DeserializeGivesEncoding | MP2/lib/sbcp.ex:123-145 | whatever it accepts is the encoding of what it returns |
| SbcpElixir.SerializeRoundTrip | MP2/lib/sbcp.ex:117-139 | a serialized text attribute is read back unchanged if and only if its length fits 16 bits |
| SbcpElixir.SerializedFront | MP2/lib/sbcp.ex:117-121 | the Elixir serializer writes the bytes of the C++ layout |
| SbcpElixir.KnownTypes | MP2/lib/sbcp.ex:106-131 | an encoded attribute is accepted if and only if its type is one of the four |
| SbcpElixir.CountBack | MP2/lib/sbcp.ex:141-145 | a client count is read as the number it stands for |
| SbcpBuffer.MessageBuffer.constructor | libsbcp/include/sbcp/sbcp.hpp:140-143 | a new message has the version, the type and an empty zeroed payload |
| SbcpBuffer.MessageBuffer.AddAttribute | libsbcp/src/sbcp.cpp:183-190 | adding in place appends the encoding or changes nothing, with success decided by the limits before the addition |
| SbcpBuffer.MessageBuffer.ChangeToFwd | libsbcp/src/sbcp.cpp:241-245 | the type bits change and the sender's name is appended; if that fails only the type has changed |
| SbcpBuffer.MessageBuffer.Read | libsbcp/include/sbcp/sbcp.hpp:198-203 | dereferencing the iterator in place reads what the value-level reader reads |
| SbcpBuffer.MessageBuffer.Attributes | libsbcp/include/sbcp/sbcp.hpp:190-229 | the range-for over the buffer returns the walk of the payload, or throws when the header does not validate |
| SbcpBuffer.MessageBuffer.At | libsbcp/src/sbcp.cpp:297-310 | the do-while of `operator[]` computes the index function |
| SbcpMessages.AcknowledgementSize | libsbcp/src/messages.cpp:53-65 | an acknowledgement is well formed exactly when its names fit, always for up to 50 of them |
| SbcpMessages.AcknowledgementHolds | libsbcp/src/messages.cpp:53-65 | an acknowledgement has type 7, the count of users including the newcomer, and a name for every other user in order |
| SbcpMessages.ClientMessagesOnTheWire | libsbcp/src/messages.cpp:8-121 | JOIN, SEND and the empty IDLE, byte by byte |
| SbcpMessages.PresenceOnTheWire | libsbcp/src/messages.cpp:79-97 | ONLINE and OFFLINE, byte by byte |
| SbcpMessages.RefusalOnTheWire | libsbcp/src/messages.cpp:67-71 | NAK, byte by byte |
| SbcpMessages.SingleIsWellFormed | libsbcp/src/messages.cpp:8-119 | every one-attribute message the builders make is well formed |
| SbcpMessages.SendBecomesFwd | libsbcp/src/sbcp.cpp:117-245 | every validated SEND can be turned into a FWD, and the FWD validates |
| SbcpMessages.SendRelayed | MP2/src/sbcp_server.cpp:476-481 | the relayed SEND is well formed and holds the original attributes, then the sender's name |
| SbcpMessages.IdleRelayed | MP2/src/sbcp_server.cpp:482-489 | naming the sender on an IDLE never throws; the result is well formed exactly when the IDLE left room |
| SbcpMessages.BuildSingle | libsbcp/src/messages.cpp:8-119 | the one-attribute builders produce the bytes of the message |
| SbcpMessages.BuildFwd | libsbcp/src/messages.cpp:36-42 | the FWD builder never throws and its result validates |
| SbcpMessages.BuildAck | libsbcp/src/messages.cpp:53-65 | the ACK builder fails its assertion exactly when the count does not match, succeeds exactly when it matches and the names fit, and then holds the acknowledgement |
| SbcpLog.FeedIsAckThenLog | MP2/src/sbcp_server.cpp:426-489 | what is queued to a user is its acknowledgement, then the log since its last join without its own events |
| SbcpLog.ViewIsRoster | MP2/src/sbcp_server.cpp:426-470 | folding such a queue gives the roster without the user |
| SbcpLog.FeedPrefix | MP2/src/sbcp_server.cpp:215-234 | any part of a queue that includes the acknowledgement is the whole queue of an earlier moment since the join |
| SbcpServer.Server.WriteAllExcept | MP2/src/sbcp_server.cpp:272-286 | one message is added to exactly the queues of the other users, whatever the order of the map |
| SbcpServer.Server.EraseUser | MP2/src/sbcp_server.cpp:461-463 | the user list without that user, order kept |
| SbcpServer.Server.HandleJoin | MP2/src/sbcp_server.cpp:387-447 | a join is refused, admitted or brings the server down exactly as the step function says, with the whole new state |
| SbcpServer.Server.HandleLeave | MP2/src/sbcp_server.cpp:455-471 | a departure removes the user everywhere and announces it |
| SbcpServer.Server.HandleMessage | MP2/src/sbcp_server.cpp:475-495 | SEND and IDLE, with whatever attributes, are relayed to the others, other types are dropped |
| SbcpServerRuns.Invariant | MP2/src/sbcp_server.cpp:387-496 | every reachable state keeps the collections consistent and every queue equal to the user's feed of the log |
| SbcpGuarantees.CollectionsAgree | MP2/src/sbcp_server.cpp:387-465 | in every reachable state the keys of both maps and the user list are the same set, without duplicates, at most max_clients of them |
| SbcpGuarantees.CountAlwaysMatches | libsbcp/src/messages.cpp:58-58 | the 16-bit count passed with an acknowledgement always matches, so its assertion never fails |
| SbcpGuarantees.QueueIsAckThenLog | MP2/src/sbcp_server.cpp:426-489 | in every run an online user's queue is its acknowledgement and then the global event sequence since its join without its own events |
| SbcpGuarantees.ThirdPartiesInOneOrder | MP2/src/sbcp_server.cpp:272-489 | any two online users receive what third parties did in the same order |
| SbcpGuarantees.QueueTellsRoster | MP2/src/sbcp_server.cpp:426-470 | folding names, ONLINE and OFFLINE over a user's queue gives the current roster without the user |
| SbcpGuarantees.PrefixTellsEarlierRoster | MP2/src/sbcp_server.cpp:215-234 | folding over any delivered part that includes the acknowledgement gives the roster of some earlier moment since the join |
| SbcpGuarantees.QueueReadsBack | MP2/src/sbcp_server.cpp:31-47 | reading the bytes of any online user's queue frame by frame and attribute by attribute gives the queue if and only if no IDLE in it outgrew its limit |
| SbcpGuarantees.StaysUpExactly | libsbcp/src/messages.cpp:58-64 | no run brings the server down if and only if it admits at most 51 users |
| SbcpServer.AsciiKeeps | MP2/src/sbcp_server.cpp:392-410 | the reasons go out as the codes of their characters |
| SbcpInputs.SendIsForwarded | MP2/src/sbcp_server.cpp:476-481 | a SEND by an online user adds exactly a FWD with its attributes and the sender's name to every other user's queue, and nothing to the sender's |
| SbcpInputs.IdleIsForwarded | MP2/src/sbcp_server.cpp:482-489 | an IDLE adds exactly an IDLE with its attributes and the sender's name to every other user's queue |
| SbcpInputs.OthersAreDropped | MP2/src/sbcp_server.cpp:490-494 | any other message from a client changes nothing |
| SbcpInputs.LeaveRemoves | MP2/src/sbcp_server.cpp:455-466 | after a departure the user is in none of the collections and everyone else still is |
| SbcpInputs.LeaveIsTold | MP2/src/sbcp_server.cpp:467-470 | every other user's queue has exactly one OFFLINE more |
| SbcpInputs.TakenNameIsRefused | MP2/src/sbcp_server.cpp:387-404 | a join under a name that is taken leaves exactly the NAK with that reason on the new connection and changes nothing else |
| SbcpInputs.FullServerRefuses | MP2/src/sbcp_server.cpp:406-422 | a join on a full server leaves exactly the NAK with that reason on the new connection and changes nothing else |
| SbcpInputs.JoinCrashesExactly | MP2/src/sbcp_server.cpp:426-432 | any other join brings the server down if and only if the names of those online do not fit an acknowledgement |
| SbcpInputs.JoinAdmits | MP2/src/sbcp_server.cpp:424-441 | otherwise the newcomer comes last in the list, on the new connection, whose queue is the acknowledgement of all the others |
| SbcpInputs.JoinIsTold | MP2/src/sbcp_server.cpp:443-446 | every other user's queue has exactly one ONLINE more |
| HttpText.FindFinds | libhttp/src/message.cpp:16-34 | what a string search returns, and that nothing matches before it |
| HttpUri.ParsedParts | libhttp/src/uri.cpp:7-21 | the parts a URI is cut into, with the wrapping length arithmetic worked out |
| HttpUri.PrintParsed | libhttp/src/uri.cpp:7-38 | for every string, printing the parsed URI gives it back if and only if its first colon is not behind its last octothorpe, and what is printed otherwise |
| HttpUri.ParsePrinted | libhttp/src/uri.cpp:7-38 | a URI is recovered from its printed form if and only if its scheme, or a relative URI, holds no colon and no octothorpe lies in its fragment or, without one, anywhere |
| HttpNumber.StoiOfDecimal | libhttp/src/request-line.cpp:44-55 | reading a printed number gives it back |
| HttpShapes.StoiReads | libhttp/src/request-line.cpp:47-48 | blanks, an optional sign and digits give the signed number, or the exception if it does not fit 32 bits, whatever non-digit follows |
| HttpShapes.StoiFails | libhttp/src/request-line.cpp:47-48 | without a digit there is an exception |
| HttpShapes.CharacterClasses | libhttp/src/request-line.cpp:47-48 | which characters count as blanks and as digits, by their codes |
| HttpShapes.VersionParts | libhttp/src/request-line.cpp:44-49 | for every text, which parts of it are read as the two numbers of a version, wherever or whether its first slash and dot are found |
| HttpLines.TableCodes | libhttp/src/status-line.cpp:21-76 | the code table matches on text exactly the numbers it prints |
| HttpLines.VersionRoundTrip | libhttp/src/request-line.cpp:44-55 | a printed version parses to itself |
| HttpLines.CodeRoundTrip | libhttp/src/status-line.cpp:9-76 | a printed status code parses to itself, table code or extension |
| HttpLines.RequestRoundTrip | libhttp/src/request-line.cpp:57-68 | a printed request line parses to itself when the method and the URI have no spaces and the URI's separators are where the parser looks for them |
| HttpLines.FirstLineRoundTrip | libhttp/src/status-line.cpp:121-145 | the printed first line of either kind parses to itself, an absent reason coming back empty, and prints the same again |
| HttpShapes.RequestWithoutVersion | libhttp/src/request-line.cpp:57-64 | in a request line with one space the whole line is read as the version |
| HttpShapes.RequestOfOneWord | libhttp/src/request-line.cpp:57-64 | a request line without a space is its own method, URI and version |
| HttpShapes.SimpleRequestFails | libhttp/src/request-line.cpp:57-64 | the simple request for the root page fails |
| HttpShapes.StatusWithoutReason | libhttp/src/status-line.cpp:121-130 | a status line that ends with its code has no reason |
| HttpShapes.StatusOfOneWord | libhttp/src/status-line.cpp:121-130 | a status line without a space fails |
| HttpShapes.ReasonBeforeLineEnd | libhttp/src/status-line.cpp:127-129 | in a line that is ended the reason goes up to the line end, and an empty one is none |
| HttpMessage.ScanHeaders | libhttp/src/message.cpp:28-35 | the header loop computes the scan function, for any way of parsing a line |
| HttpMessage.ConstructMessage | libhttp/src/message.cpp:14-40 | the constructor's steps, in order, compute the construct function, exceptions included |
| HttpMessage.ParseMessage | libhttp/src/message.cpp:14-40 | the constructor's outcome is that of the parse function, exceptions included |
| HttpMessage.PrintMessage | libhttp/src/message.cpp:66-80 | appending piece by piece gives the printed message |
| HttpMessage.BodyFollowsBlankLine | libhttp/src/message.cpp:14-40 | for every text containing CRLFCRLF the loop terminates and, when nothing throws, the body is everything after the first one |
| HttpMessage.ParsedExactly | libhttp/src/message.cpp:14-40 | a text with a blank line is parsed if and only if its first line parses and every other line before the blank one is a header |
| HttpMessage.ParsedOnlyByWrap | libhttp/src/message.cpp:14-40 | a text without one is parsed if and only if its first line has one character and parses, and every other line is a header |
| HttpScan.BlankLineOrNone | libhttp/src/message.cpp:28-36 | every text has a first blank line or none, so that those are the only two cases |
| HttpMessage.EventuallyMeans | libhttp/src/message.cpp:28-36 | being parsed, and ending, is doing so within some number of rounds of the header loop |
| HttpMessage.DigitIsParsed | libhttp/src/message.cpp:14-40 | one digit, a line end and a header: such a text has no blank line and is parsed |
| HttpMessage.DigitExample | libhttp/src/message.cpp:14-40 | one of them, written out |
| HttpMessage.EndsExactly | libhttp/src/message.cpp:28-35 | once the first line has parsed, the constructor ends if and only if some later line, or the first one less its first character, is empty or not a header |
| HttpMessage.LoopsForever | libhttp/src/message.cpp:30-35 | a family of texts on which the loop never ends |
| HttpMessage.RequestLoopsForever | libhttp/src/message.cpp:30-35 | one of them, written out: a request for an absolute URI whose only header line is not ended |
| HttpMessage.HeaderRoundTrip | libhttp/src/header.cpp:28-96 | a canonical header parses back from its printed line |
| HttpShapes.OtherHeader | libhttp/src/header.cpp:57-96 | a line with a name, a colon, any character and a value is that header, for every name but the three dates |
| HttpShapes.ReadableDate | libhttp/src/header.cpp:74-92 | a Date, Expires or Last-Modified whose date can be read carries it along with its text |
| HttpShapes.UnreadableExpires | libhttp/src/header.cpp:79-90 | an Expires whose date cannot be read carries the present moment |
| HttpShapes.UnreadableDate | libhttp/src/header.cpp:77-92 | a Date or Last-Modified whose date cannot be read is an exception |
| HttpShapes.ExpiresZero | libhttp/src/header.cpp:79-90 | the line "Expires: 0" is one of those |
| HttpShapes.NoHeader | libhttp/src/header.cpp:57-63 | a line without a colon, or one that ends with its first colon, is an exception |
| HttpShapes.DateIsRewritten | libhttp/src/header.cpp:36-55 | a date header that is parsed and printed again carries its date in the library's own text |
| HttpShapes.DatesArePrinted | libhttp/src/header.cpp:28-55 | a header with a date prints that date and not the text it came with |
| HttpShapes.FailsAtOnce | libhttp/src/message.cpp:15-27 | a text without a line end is no message, and the exception of a first line is that of the message |
| HttpMessage.MessageRoundTrip | libhttp/src/message.cpp:14-80 | parsing the printed text of a canonical message recovers first line, headers and body, and it prints the same again |
| ProxyCache.GetHeader | libhttp/src/message.cpp:52-59 | the first header of the name, or none when there is none |
| ProxyCache.ParsedIsResponse | MP4/src/http_proxy.cpp:189-218 | whatever text parses as a response, the casts of its date headers succeed |
| ProxyCache.Proxy.Oldest | MP4/src/http_proxy.cpp:234-239 | the eviction scan finds an entry with the least last-used time |
| ProxyCache.Proxy.ExpirationOf | MP4/src/http_proxy.cpp:186-225 | the date of the first Expires header, else of the first Last-Modified, else of the first Date, else the present moment |
| ProxyCache.ExpirationIs | MP4/src/http_proxy.cpp:186-225 | the expiry is that date and no other, stated on the list of headers |
| ProxyCache.Proxy.Handle | MP4/src/http_proxy.cpp:132-245 | one request: served fresh, revalidated, or fetched with the eviction and insertion that follow |
| ProxyCache.CacheStaysFaithful | MP4/src/http_proxy.cpp:132-245 | after every run the cache holds at most ten entries, each an origin answer for its URI with that answer's expiry |
| ProxyCache.RepliesComeFromOrigin | MP4/src/http_proxy.cpp:132-245 | with an origin that answers 304 only to conditional requests, the 304 lookup always finds its key and every reply is an origin answer for that URI, given without asking only before its expiry |
| ProxyCache.EntriesAreNeverUpdated | MP4/src/http_proxy.cpp:132-245 | an entry is certain to keep its response and expiry through a request if and only if the origin sends nothing new, or the entry is not up for eviction, or the same answer takes its place |
| ProxyCache.FetchedBecomesEntry | MP4/src/http_proxy.cpp:231-245 | a fetched answer is certain to become the cached entry if and only if the URI had none, had this very one, or has the only entry that can make room |
| ProxyCache.StaleStaysStale | MP4/src/http_proxy.cpp:151-245 | a stale entry makes every later request go to the origin until it is evicted, and a 304 brings back the old response |
| ProxyCache.StaleRunHappens | MP4/src/http_proxy.cpp:132-245 | a run with an honest origin in which a page is fetched, fetched again with new content, and then given out in its first version |
| ProxyRuns.HandleSize | MP4/src/http_proxy.cpp:231-245 | what a request does to the number of entries: a page fetched for the first time adds one up to ten, anything served from the cache none, and a page fetched anew in a full cache can cost one |
| ProxyRuns.SizeOverRuns | MP4/src/http_proxy.cpp:231-245 | in every run the cache grows by every page fetched for the first time until it holds ten, and never holds more |
| ProxyRuns.FirstFetchStored | MP4/src/http_proxy.cpp:186-245 | a page fetched for the first time is in the cache with the expiry that its headers give |
| ProxyRuns.FreshIsServed | MP4/src/http_proxy.cpp:132-150 | as long as it is not up for eviction it is served without asking the origin if and only if that expiry has not come |
| ProxyRuns.UseRenews | MP4/src/http_proxy.cpp:145-180 | every hit, revalidation and first fetch renews the entry's last-used time |
| ProxyRuns.JustUsedStays | MP4/src/http_proxy.cpp:231-241 | an entry that has been used is not thrown out while one used longer ago is there or the cache is not full |
| ProxyRuns.OneOldestGoes | MP4/src/http_proxy.cpp:231-245 | a first fetch in a full cache throws out one least recently used entry, and all others stay as they are |

## Left out

- Sockets, `fork`, `select`, signals, threads, FIFO and file set-up: what they report is a list of events or inputs over which everything is quantified.
- TftpWrite.ServeWrite: says nothing about the file once a full block arrives after a read has met the end, because the source then asks for a negative number of bytes; that state is reported.
- Datagrams with more than 512 bytes of data, or too short for their header.
- HttpMessage.ParseMessage: watches the header loop for a given number of rounds, because the source's loop can run forever; `EndsExactly` says when some number is enough, `BodyFollowsBlankLine` gives one for texts with a blank line.
- Messages in the chat server's queues are values; their bytes are those of `QueueReadsBack`. Partial writes, short reads and failed writes are not modelled.
- The chat handler processes, the join handshake over the bootstrap pipe, and the client programs.
- Attribute values longer than their limits, which the setters copy past the field, and the `const char*` accessors, which stop at NUL.
- Header bit packing is written with division and remainder, for types below 128.
- Fairness of the chat loop: it serves the first ready name in map order.
- The message header of the Elixir client, whose type map gives two types one code.
- Concurrent requests to the proxy: its mutex is never locked, so requests are handled one at a time.
- Date text and `std::hash`: dates are parsed and printed by a parameter, and cache keys are the URIs themselves.
- The proxy's reading of requests and its splitting of host, port and path.
- RQ and ERROR packets, mode and error names, `URI::encode`, stream output operators, echo and demonstration programs.
