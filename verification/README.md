# Verified models of three parts of the repository

The project models, and proves properties of, three pieces of code.

1. **The VectorNav device driver** (`vnccpplib-0.3.2/src/vndevice.c`). A receive thread runs two
   framers over the same serial bytes: one for `$ ... CR LF` text packets, one for binary packets
   whose length follows from a bit-mask header and a table. Behind them sit a CRC-16, the length
   calculator, six group decoders, the command printer, the handshake with a user thread that waits
   for a response, and the store of the latest asynchronous data.
2. **The line-transfer protocol** (`server/server.c`, `server/client.c`): one line a request, cut
   into datagrams of at most 4094 bytes between BEGIN and END, with DONE after the last line.
3. **Row and column statistics** (`HistogramWindow.cpp`): per-line minimum, maximum and floored
   mean over strided pixel memory, by rows or by columns.

## Layout

| file | what it holds |
|---|---|
| `Sequences.dfy`, `StringRoutines.dfy` | strings up to a terminator, pieces; strtok and atoi |
| `Bytes.dfy` | bytes, 16-bit words and messages as bits |
| `Crc16.dfy`, `CrcDetection.dfy`, `CrcOrder.dfy` | the CRC loop, polynomial division, the errors it detects |
| `PacketLayout.dfy` | header fields, the length table, the length loops |
| `Framer.dfy` | both framers as functions of the bytes seen, with their invariant |
| `CommunicationHandler.dfy` | the two framers as objects over 256-byte arrays, proved equal to those functions |
| `FramerProperties.dfy`, `Demultiplexing.dfy` | what holds of every run; what a stream of whole frames yields |
| `TextFrames.dfy`, `ZeroGroups.dfy` | exactly which text frames, and which packets with groups byte zero, are dispatched |
| `TextParser.dfy`, `BinaryParser.dfy` | both framers on any input as parsers that keep no capture state |
| `CompositeData.dfy`, `Decoder.dfy`, `PacketDecoder.dfy` | wire format, group decoders, packet decoder, decoders against the table |
| `RoundTrip.dfy`, `EndToEnd.dfy` | the wire format as an encoder, decoding as its inverse, and both through the framers |
| `WireFormat.dfy` | where every component lies in a packet, in numbers |
| `ImuStatus.dfy` | accepted frames on which the decoder leaves payload and buffer |
| `Commands.dfy` | checksum, printing, reading printed commands back |
| `Transaction.dfy` | user thread and receive thread, all interleavings |
| `AsyncText.dfy` | which asynchronous text messages are read, and into which members |
| `Snapshot.dfy` | the data store, any number of readers |
| `LineTransfer.dfy`, `Records.dfy`, `LineConservation.dfy` | both processes, their channels, their loops; what any datagrams print; the balance of text over whole runs |
| `LineStatistics.dfy`, `RowColStats.dfy`, `PixelMemory.dfy` | statistics of lines and grids; the four kernels; images in memory read back |

## How the model is built

- A 16-bit word is the sequence of its bits, most significant first, and every C operator on it is
  written out bit by bit; bytes are integers from 0 to 255. Floats and doubles are opaque words of
  4 and 8 bytes, so a decoded value is the bytes it was loaded from.
- Loops that change state are methods with invariants. A structure that C fills through a pointer
  is an in-out value, so that absent slots are its zeros. The log of dispatched packets stands for
  the calls into the packet handlers.
- Concurrent parts are state machines over all interleavings: one dispatched packet is one step of
  the receive thread, critical sections are atomic or held by a lock, the event is a binary
  semaphore. In the line transfer every datagram is a step.
- `IsMessage`, `IsBinaryFrame`, `IsTextFrame`, `IsCommand` and `IsSafe` say what a caller has to
  provide. A message is a frame if and only if it names a group, selects only what table and
  decoders agree on, and fits the buffer (`EncodeIsFrameIff`); a line arrives if and only if it is
  safe, alone and in whole runs (`DeliversIffSafe`, `StuckDeliversIff`). `IsTextFrame` and
  `IsCommand` describe what a sensor sends and are sufficient only: which `$ ... CR LF` frames
  the code dispatches whole is `DispatchedWholeIff`.

Where code and comments disagree the model follows the code: `vndevice.h` says that the checksum
of a response has been checked and stripped, but nothing checks it and the whole packet is copied
(`SuccessIsTheResponse`).

Findings, each stated as a lemma:

- `$` restarts a text capture without clearing the end-character flag. So a packet may lack its CR,
  exactly when LF follows such a `$` (`LacksFirstEndIff`), and a frame with an empty body is lost
  exactly when the flag is pending (`EmptyBodyDispatchedIff`, `EmptyBodyLost`).
- A second CR in a row clears that flag, so one CR too many before the end characters loses any
  text packet (`ExtraReturnLoses`).
- `$VNERR CR LF` is dispatched, has no second token, and ends the process
  (`NumberlessErrorIsFrame`, `NumberlessErrorCrashes`).
- The decoders and the length table disagree on some selection bits, and the lengths then never come
  out even (`LengthsAgreeIff`). The decoder leaves the payload of some accepted frames
  (`StaysInPayloadIff`, `ImuStatusFrame`) and of some of those the buffer (`StaysInBufferIff`,
  `FrameBeyondBuffer`).
- A groups byte of zero is accepted with the length of whichever packet came before
  (`ZeroGroups.DispatchedIff`).
- A client that receives full chunks without a BEGIN lacks one character of room (`AppendFitsIff`,
  `RoomRunsOut`).
- Only `$` and four letters of an asynchronous header are compared, so that six messages (VNQTM,
  VNQTA, VNQTR, VNQMR, VNMAR, VNGPE) are read as others (`ReadRightIff`); a VNGPE position is stored
  as latitude, longitude and altitude (`EcefStoredAsLatitude`). The eleventh field of VNIMU is stored
  over the tenth (`EleventhFieldIsTemperature`).
- A last line `END` without a newline arrives as an empty record (`EndLineIsLost`).
- The mean of 65538 white 16-bit pixels is zero (`WhiteLineOverflows`).

## Model

| member | source | states |
|---|---|---|
| Crc16.ComputeCrc16 | vnccpplib-0.3.2/src/vndevice.c:1528-1546 | the loop over an array computes the CRC function of exactly that slice |
| Crc16.ByteStepIsTwoNibbleSteps | vnccpplib-0.3.2/src/vndevice.c:1536-1543 | one byte of the swap-and-shift loop equals two nibble steps of division |
| Crc16.CrcIsRemainder | vnccpplib-0.3.2/src/vndevice.c:1528-1546 | the byte-wise loop equals bit-by-bit division with zero initial remainder, for messages of any length |
| Crc16.CrcIsThePolynomialRemainder | vnccpplib-0.3.2/src/vndevice.c:1528-1546 | a word is the remainder of message times x^16 by x^16+x^12+x^5+1 (for some quotient) if and only if it is the CRC |
| CrcDetection.CrcIsLinear | vnccpplib-0.3.2/src/vndevice.c:1528-1546 | CRC of the XOR of two equally long messages is the XOR of their CRCs |
| CrcDetection.UndetectedIff | vnccpplib-0.3.2/src/vndevice.c:1800-1801 | a changed accepted string is accepted again if and only if the difference has remainder zero |
| CrcDetection.TrailerIsUnique | vnccpplib-0.3.2/src/vndevice.c:1800-1801 | appending two bytes gives CRC zero if and only if they are the CRC, high byte first |
| CrcDetection.BurstIsDetected | vnccpplib-0.3.2/src/vndevice.c:1800-1801 | no error within 16 consecutive bits of an accepted string passes the zero test |
| CrcDetection.CrcParity | vnccpplib-0.3.2/src/vndevice.c:1528-1546 | the parity of the CRC is the parity of the message |
| CrcDetection.OddErrorIsDetected | vnccpplib-0.3.2/src/vndevice.c:1800-1801 | no odd number of flipped bits in an accepted string passes the zero test |
| CrcOrder.PeriodIff | vnccpplib-0.3.2/src/vndevice.c:1528-1546 | a power of x is 1 modulo the generator if and only if its exponent is a multiple of 32767 |
| CrcOrder.TwoBitErrorIff | vnccpplib-0.3.2/src/vndevice.c:1800-1801 | two flipped bits of an accepted string pass the zero test if and only if they are a multiple of 32767 bits apart |
| CrcOrder.ThreeBitErrorIsDetected | vnccpplib-0.3.2/src/vndevice.c:1800-1801 | in strings of up to 4095 bytes, which covers every packet, no error of one, two or three bits passes the zero test |
| PacketLayout.CountSetBits | vnccpplib-0.3.2/src/vndevice.c:1414-1429 | the shift loop counts the bits that are set |
| PacketLayout.ComputeLengthOfBinaryGroupPayload | vnccpplib-0.3.2/src/vndevice.c:198-213 | sum of the table lengths of the selected bits |
| PacketLayout.ComputeLengthOfExpectedBinaryPayload | vnccpplib-0.3.2/src/vndevice.c:1833-1889 | sum over the groups present, each with the selection field that belongs to it |
| PacketLayout.PayloadOfHeader | vnccpplib-0.3.2/src/vndevice.c:1833-1889 | the expected length depends on the header only |
| PacketLayout.NoFieldsIffZero | vnccpplib-0.3.2/src/vndevice.c:1750-1785 | there is no selection field exactly for a groups byte of zero, the case in which no length is computed |
| Framer.AsciiStep | vnccpplib-0.3.2/src/vndevice.c:1644-1718 | every byte keeps the text framer's invariant: index at most 256, hunting means index 0, `$` only in front |
| Framer.BinaryStep | vnccpplib-0.3.2/src/vndevice.c:1721-1824 | every byte keeps the binary framer's invariant: index at most 256, hunting means index 0, 2 plus field bytes until the header is complete, then below the expected length, itself at most 256 |
| Framer.ReadsDoNotMatter | vnccpplib-0.3.2/src/vndevice.c:1627-1642 | state and dispatched packets do not depend on how the bytes are cut into reads |
| CommunicationHandler.AsciiFramer.Handle | vnccpplib-0.3.2/src/vndevice.c:1644-1718 | one byte through buffer, index and flags is the text framer's step; every store is in bounds |
| CommunicationHandler.BinaryFramer.Handle | vnccpplib-0.3.2/src/vndevice.c:1721-1824 | one byte through buffer, index, flags and counters is the binary framer's step; every store is in bounds |
| CommunicationHandler.HandleRead | vnccpplib-0.3.2/src/vndevice.c:1627-1826 | a whole read takes both framers to the state, and dispatches the packets, that the functions give |
| FramerProperties.BinaryDispatchIsSound | vnccpplib-0.3.2/src/vndevice.c:1731-1821 | over any input, binary packets are ordered, disjoint, contiguous pieces of it that start with 0xFA, have CRC zero over the rest and, unless the groups byte is zero, exactly the length the header asks for |
| FramerProperties.TextDispatchIsSound | vnccpplib-0.3.2/src/vndevice.c:1652-1718 | over any input, text packets are ordered, disjoint, contiguous pieces of it with `$` in front only and LF last |
| FramerProperties.StaleEndCharacter | vnccpplib-0.3.2/src/vndevice.c:1660-1690 | an input on which a packet without CR is dispatched |
| FramerProperties.LacksFirstEndIff | vnccpplib-0.3.2/src/vndevice.c:1660-1705 | from any state, a byte makes the framer dispatch a packet without CR before its LF if and only if it is an LF and finds a lone `$` captured with the end-character flag set |
| FramerProperties.LacksFirstEndInRunIff | vnccpplib-0.3.2/src/vndevice.c:1660-1705 | the same for the byte after any input from the initial state |
| FramerProperties.PendingAfterIff | vnccpplib-0.3.2/src/vndevice.c:1660-1667 | that state is left by the last byte of an input if and only if it is `$` and the flag was set when it came |
| FramerProperties.EmptyBodyDispatchedIff | vnccpplib-0.3.2/src/vndevice.c:1660-1718 | `$ CR LF` is dispatched if and only if no end character is pending |
| FramerProperties.EmptyBodyLost | vnccpplib-0.3.2/src/vndevice.c:1660-1718 | from the initial state `$ CR $ CR LF` dispatches nothing |
| FramerProperties.AsciiCaptureBounded | vnccpplib-0.3.2/src/vndevice.c:1644-1650 | from any reachable state a text capture takes in at most 256 bytes less those it holds |
| FramerProperties.BinaryCaptureBounded | vnccpplib-0.3.2/src/vndevice.c:1721-1821 | the same for a binary capture, also with groups byte zero and a leftover expected length |
| TextFrames.DispatchedWholeIff | vnccpplib-0.3.2/src/vndevice.c:1644-1718 | from any state and for any body, `$`, body, CR, LF is dispatched whole and alone if and only if the body has no `$` and at most 252 bytes, no LF of it meets a set flag, and the flag is clear at its end |
| TextFrames.EndsEarly | vnccpplib-0.3.2/src/vndevice.c:1677-1705 | a body with an LF that meets a set flag: the packet up to the first such LF is dispatched and the rest of the frame lost |
| TextFrames.EndsNowhere | vnccpplib-0.3.2/src/vndevice.c:1660-1718 | a body without one: the frame is dispatched whole if the flag is clear at its end, and otherwise nothing is |
| TextFrames.ExtraReturnLoses | vnccpplib-0.3.2/src/vndevice.c:1669-1718 | from any state, one CR too many before the end characters and no packet is dispatched |
| ZeroGroups.DispatchedIff | vnccpplib-0.3.2/src/vndevice.c:1744-1817 | with groups byte zero, a hunting framer dispatches the bytes as one packet if and only if they start with 0xFA, have the leftover expected length, between 3 and 256, and CRC zero |
| Demultiplexing.TextFrameDispatched | vnccpplib-0.3.2/src/vndevice.c:1652-1718 | from any state, the bytes of a text frame dispatch exactly that frame |
| Demultiplexing.FrameRead | vnccpplib-0.3.2/src/vndevice.c:1787-1821 | from hunting, the bytes of a frame with the right length and any CRC dispatch the frame if the CRC is zero, nothing if not, and end in hunting with nothing kept of them |
| Demultiplexing.OversizedSkipped | vnccpplib-0.3.2/src/vndevice.c:1764-1784 | a header that asks for more than 256 bytes dispatches nothing and ends in hunting |
| Demultiplexing.BinaryFrameDispatched | vnccpplib-0.3.2/src/vndevice.c:1731-1821 | from hunting, the bytes of a binary frame dispatch exactly that frame and end in hunting |
| Demultiplexing.Demultiplexed | vnccpplib-0.3.2/src/vndevice.c:1627-1826 | for any interleaving of well-formed frames, frames with a wrong CRC, headers that ask for too much and noise, in reads of any size, the binary packets are exactly the binary frames in order, and every text frame is dispatched whole while its bytes arrive |
| BinaryParser.FramerParses | vnccpplib-0.3.2/src/vndevice.c:1721-1821 | on any input at all, a hunting binary framer dispatches exactly what a parser finds that cuts captures off by the length in their header, or the one left over |
| BinaryParser.BinariesAreParsed | vnccpplib-0.3.2/src/vndevice.c:1627-1826 | the same from the initial state, in reads of any size |
| TextParser.TextFramerParses | vnccpplib-0.3.2/src/vndevice.c:1644-1718 | on any input at all, a hunting text framer dispatches exactly what a parser finds that ends captures at an LF meeting a set flag, at a new `$` or at 256 bytes |
| TextParser.TextsAreParsed | vnccpplib-0.3.2/src/vndevice.c:1627-1719 | the same from the initial state, in reads of any size |
| CompositeData.WidthVersusTable | vnccpplib-0.3.2/src/vndevice.c:51-58 | selection by selection, how far decoder and table differ |
| CompositeData.GroupCarriesOnce | vnccpplib-0.3.2/src/vndevice.c:459-1411 | within one group no two selected items carry the same component |
| Decoder.ProcessGroup1Data | vnccpplib-0.3.2/src/vndevice.c:459-684 | consumes the width of the selected items and loads each from where the wire format puts it |
| Decoder.ProcessGroup2Data | vnccpplib-0.3.2/src/vndevice.c:686-774 | the same for group 2 |
| Decoder.ProcessGroup3Data | vnccpplib-0.3.2/src/vndevice.c:776-936 | the same for group 3, whose IMU status is stepped over |
| Decoder.ProcessGroup4Data | vnccpplib-0.3.2/src/vndevice.c:938-1094 | the same for group 4 |
| Decoder.ProcessGroup5Data | vnccpplib-0.3.2/src/vndevice.c:1096-1259 | the same for group 5 |
| Decoder.ProcessGroup6Data | vnccpplib-0.3.2/src/vndevice.c:1261-1411 | the same for group 6 |
| PacketDecoder.ProcessReceivedBinaryPacket | vnccpplib-0.3.2/src/vndevice.c:375-453 | for every packet that fits the receive buffer, both cursors meet field and payload of every group present and the store receives the complete decode, read from the buffer and at most four bytes behind it |
| PacketDecoder.FirstTwoAlwaysAgree | vnccpplib-0.3.2/src/vndevice.c:459-774 | groups 1 and 2 agree with the table on every 16-bit field |
| PacketDecoder.DeclaredAgrees | vnccpplib-0.3.2/include/vndevice.h:115-220 | fields made of declared selections select nothing on which table and decoder disagree |
| PacketDecoder.GroupLengthsAgreeIff | vnccpplib-0.3.2/src/vndevice.c:198-213 | a decoder consumes what the table loop computes if and only if no such bit is selected |
| PacketDecoder.LengthsAgreeIff | vnccpplib-0.3.2/src/vndevice.c:375-448 | the data cursor ends at packet length minus 2 if and only if the header selects nothing on which table and decoders disagree |
| PacketDecoder.DataEndIs | vnccpplib-0.3.2/src/vndevice.c:375-448 | where the data cursor ends for every header: packet length minus 2, minus the lengths of selections no decoder knows, plus 6 if the IMU status is selected |
| PacketDecoder.StaysInPayloadIff | vnccpplib-0.3.2/src/vndevice.c:776-788 | the decoders stay within the payload if and only if the IMU status is not selected or some selection unknown to them is |
| PacketDecoder.StaysInBufferIff | vnccpplib-0.3.2/src/vndevice.c:1776-1817 | for packets of at most 256 bytes, the decoders stay within the buffer unless the IMU status is selected, nothing unknown is, and the packet has more than 252 bytes |
| RoundTrip.Loaded | vnccpplib-0.3.2/src/vndevice.c:459-1411 | after decoding, a slot is set exactly if an item carries it, and holds the bytes of the last such item |
| RoundTrip.DecodeOfPrefix | vnccpplib-0.3.2/src/vndevice.c:375-457 | decoding the receive buffer depends on the packet alone |
| RoundTrip.FieldFound | vnccpplib-0.3.2/src/vndevice.c:388-448 | the decoder of a group is given the selection field stored for it |
| RoundTrip.DecodeEncode | vnccpplib-0.3.2/src/vndevice.c:375-1411 | for any groups byte and selections, decoding an encoded message gives its values; what no selected item carries is zero |
| RoundTrip.HighestGroupWins | vnccpplib-0.3.2/src/vndevice.c:375-1411 | a member carried by several groups takes its value from the one item of the highest-numbered group that carries it |
| WireFormat.ComponentAt | vnccpplib-0.3.2/src/vndevice.c:375-1411 | for every header, a component is decoded from header length, payload of the groups before, lengths of the selections before, with what unknown selections and the IMU status put them off by, and one number per member, in the highest-numbered group whose field selects it |
| WireFormat.DecodedIffBrought | vnccpplib-0.3.2/src/vndevice.c:375-1411 | a component is decoded if and only if some group that is present selects it |
| WireFormat.AgreedComponentAt | vnccpplib-0.3.2/src/vndevice.c:375-1411 | where table and decoders agree, the length table and those numbers alone say where |
| RoundTrip.EncodeIsFrameIff | vnccpplib-0.3.2/src/vndevice.c:1776-1801 | an encoded message is a frame the receiver accepts if and only if it names a group, selects only agreed bits and has at most 256 bytes |
| RoundTrip.EncodeMessageOf | vnccpplib-0.3.2/src/vndevice.c:375-1411 | every accepted frame with agreed selections is the encoding of a message, so encoder and decoder are inverse |
| ImuStatus.ImuStatusFrame | vnccpplib-0.3.2/src/vndevice.c:783-788 | an accepted frame, with any two payload bytes, whose decoder steps over payload, CRC and four bytes more |
| ImuStatus.FrameBeyondBuffer | vnccpplib-0.3.2/src/vndevice.c:776-788 | an accepted frame of 256 bytes, with any 248 payload bytes, whose decoder ends four bytes behind the receive buffer |
| EndToEnd.MessageReceived | vnccpplib-0.3.2/src/vndevice.c:1731-1821 | fed to a hunting framer, an encoded message is one packet, and decoding that packet gives exactly the values, slot by slot |
| EndToEnd.EverythingReceived | vnccpplib-0.3.2/src/vndevice.c:1627-1826 | for any sequence of messages, text packets, damaged frames and noise in reads of any size, the packets decoded are the messages in order, each decode holds exactly the values sent, and every text packet is dispatched whole |
| Commands.ComputeXorFromCommand | vnccpplib-0.3.2/src/vndevice.c:1513-1526 | the loop computes the XOR of all bytes |
| Commands.ChecksumIsColumnParity | vnccpplib-0.3.2/src/vndevice.c:1513-1526 | every bit of the checksum is the parity of that bit over the command |
| Commands.ComputeAndReturnAsHex | vnccpplib-0.3.2/src/vndevice.c:1496-1511 | overwrites two characters with the checksum's digits and no others |
| Commands.HexDigitIs | vnccpplib-0.3.2/src/vndevice.c:1496-1511 | the digits are those of `%02X` |
| Commands.DigitsDecode | vnccpplib-0.3.2/src/vndevice.c:1496-1526 | the two digits after `*` read back as the XOR of the bytes between `$` and `*` |
| Commands.WriteOutCommand | vnccpplib-0.3.2/src/vndevice.c:1560-1574 | the port receives the command, `*`, the digits, CR and LF |
| Commands.CommandsReadBack | vnccpplib-0.3.2/src/vndevice.c:1560-1574 | any list of commands, printed and fed to a framer in any state, is dispatched as exactly those commands in order |
| Transaction.VnDevice.EnableResponseChecking | vnccpplib-0.3.2/src/vndevice.c:1484-1494 | for a match that fits the buffer of ten characters, sets the flag and copies the match, nothing else |
| Transaction.VnDevice.DisableResponseChecking | vnccpplib-0.3.2/src/vndevice.c:3034-3043 | clears flag and match, nothing else |
| Transaction.VnDevice.ShouldCheckForResponse | vnccpplib-0.3.2/src/vndevice.c:3045-3061 | returns the flag and, if it is set, the match |
| Transaction.VnDevice.ProcessReceivedPacket | vnccpplib-0.3.2/src/vndevice.c:1892-1943 | for any packet: it crashes if and only if it is an error packet without a number, and otherwise changes the shared fields by the error number read out of it, as the response, by being dropped or by being handed on |
| Transaction.IsErrorIff | vnccpplib-0.3.2/src/vndevice.c:1899 | a packet is an error packet if and only if its characters 1 to 5 are VNERR |
| Transaction.AnswersIff | vnccpplib-0.3.2/src/vndevice.c:1924 | a packet answers a match if and only if the match is what follows its first character |
| Transaction.IsHandledIff | vnccpplib-0.3.2/src/vndevice.c:1903-1908 | an error packet yields a number if and only if it has at least two tokens |
| Transaction.NumberlessErrorIsFrame | vnccpplib-0.3.2/src/vndevice.c:1898-1908 | `$VNERR CR LF` is a frame the text framer dispatches, an error packet, and yields no number |
| Transaction.NumberlessErrorCrashes | vnccpplib-0.3.2/src/vndevice.c:1898-1908 | such a packet can arrive in any state in which the process is alive, and nothing happens after it |
| Transaction.ErrorPacketIsRead | vnccpplib-0.3.2/src/vndevice.c:1898-1908 | an error packet printed with a decimal number is recognised and the number, cut to eight bits, is read back; the system's code is seven more |
| Transaction.VnDevice.StartTransaction | vnccpplib-0.3.2/src/vndevice.c:1576-1594 | the four steps of the state machine before the wait, in the order of the code |
| Transaction.RunsExplained | vnccpplib-0.3.2/src/vndevice.c:1576-1601 | in every reachable state, what the shared fields hold in terms of the last start, the last enabling and the first deciding packet after it; the match is empty when none is sought |
| Transaction.ReturnsTheLastError | vnccpplib-0.3.2/src/vndevice.c:1576-1601 | a transaction returns the code of the last error packet since it began, and zero if and only if there was none |
| Transaction.SuccessIsTheResponse | vnccpplib-0.3.2/src/vndevice.c:1892-1938 | without an error, the response buffer holds the first matching packet dispatched after this transaction enabled checking, and its characters from 1 on are the match |
| Transaction.ResponseStartsWithMatch | vnccpplib-0.3.2/src/vndevice.c:1924-1934 | the characters of the copied text from 1 on are the requested match |
| Transaction.ResponseIsTaken | vnccpplib-0.3.2/src/vndevice.c:1921-1938 | in every reachable state with checking on, `$`, the match asked for and anything else, unless it reads as an error, is a response: the event is signalled and its text left in the buffer |
| Transaction.ResponseReturns | vnccpplib-0.3.2/src/vndevice.c:1590-1601 | and a waiting transaction then wakes and returns with it |
| Transaction.HandedOnIs | vnccpplib-0.3.2/src/vndevice.c:1892-1943 | in every reachable state, the packets handed to the asynchronous parser are exactly those that are no errors and came while no decision was awaited, in order |
| Transaction.ResponseLasts | vnccpplib-0.3.2/src/vndevice.c:1928-1937 | that response is not overwritten, whatever arrives, until a transaction enables checking again |
| Transaction.WakesExactlyOnDecision | vnccpplib-0.3.2/src/vndevice.c:1590-1595 | no lost wakeup and none left over: the event is signalled exactly between the deciding packet and the end of the wait |
| Transaction.PortReadsBack | vnccpplib-0.3.2/src/vndevice.c:1588-1593 | when the user thread waits, the port has carried exactly the printed commands of the transactions begun |
| AsyncText.MessageRead | vnccpplib-0.3.2/src/vndevice.c:1945-3032 | a message of any of the 27 headers with any fields is stored if and only if it has at least the fields its branch reads, and the fields are then assigned in order |
| AsyncText.FieldStored | vnccpplib-0.3.2/src/vndevice.c:1955-3014 | each field read is stored in the component the branch names, but for the tenth of VNIMU |
| AsyncText.SlotsAreDistinct | vnccpplib-0.3.2/src/vndevice.c:1955-3014 | every field goes to a component that exists, no two to the same but for the last two of VNIMU |
| AsyncText.MembersAreWhole | vnccpplib-0.3.2/src/vndevice.c:1955-3014 | a message that fills one component of a member fills them all |
| AsyncText.ReadRightIff | vnccpplib-0.3.2/src/vndevice.c:1955-2987 | a message with its fields is read as what it is if and only if its first four letters do not come up earlier |
| AsyncText.EcefStoredAsLatitude | vnccpplib-0.3.2/src/vndevice.c:2795-2859 | the three position fields of a VNGPE message are stored as latitude, longitude and altitude and not as its own |
| AsyncText.EleventhFieldIsTemperature | vnccpplib-0.3.2/src/vndevice.c:2747-2794 | the temperature stored from a VNIMU message is its eleventh field |
| AsyncText.ProcessAsyncData | vnccpplib-0.3.2/src/vndevice.c:1945-3032 | token by token: the store is replaced by the converted fields if and only if the header is known and there are as many tokens as it needs, and otherwise unchanged |
| Snapshot.SnapshotIsWhole | vnccpplib-0.3.2/src/vndevice.c:306-317 | with copies under the lock byte by byte in any order and any number of readers, what a reader takes away is the structure stored last, never a mix |
| Snapshot.SnapshotIsOneDecode | vnccpplib-0.3.2/src/vndevice.c:375-453 | what a reader takes away holds exactly the decode of one binary packet that had arrived, or a number for every field of one complete text packet, or nothing but zeros |
| Snapshot.ImageHoldsDecode | vnccpplib-0.3.2/src/vndevice.c:375-453 | every component of a decode has all its bytes in the stored image, each in a place of its own, and everything else is zero |
| Snapshot.NothingStoredMeanwhile | vnccpplib-0.3.2/src/vndevice.c:306-317 | it is the one stored last when the reader entered |
| LineTransfer.ChunksOfLine | server/server.c:124-138 | datagrams concatenate to the line, all but the last have 4094 bytes, the last 1 to 4094, their number is the length divided by 4094 rounded up |
| LineTransfer.SendLine | server/server.c:122-138 | the splitting loop sends BEGIN, the chunks and END |
| LineTransfer.ReceiveRecord | server/client.c:90-152 | the receive loop stops at the first END or DONE and prints what was collected |
| Records.RecordPrinted | server/client.c:94-147 | whatever came before a BEGIN, END and DONE alike print the texts of the datagrams since it as one record; END asks for the next line, DONE stops |
| Records.UnbegunPrinted | server/client.c:94-147 | the same without a BEGIN, except that nothing is printed if nothing came |
| LineTransfer.AppendFitsIff | server/client.c:94-144 | for any datagrams of at most 4094 bytes, an append fits the reallocated record if and only if not every datagram since the client began to wait is a full chunk of text |
| LineTransfer.RoomAfterBegin | server/client.c:104-142 | after a BEGIN there is always room for a whole chunk more, whatever follows |
| LineTransfer.LineFits | server/client.c:104-144 | the chunks of any line fit as long as the client collects them |
| LineTransfer.RunsHaveRoom | server/client.c:94-144 | with safe lines every append fits, in every reachable state |
| LineTransfer.RunsHaveRoomIff | server/client.c:94-144 | with any lines, in every reachable state, an append fits if and only if the record is shorter than what is allocated or the datagram is not a full chunk of text |
| LineTransfer.RoomRunsOut | server/client.c:119-142 | there is a line, with a NUL in its first chunk, and a run of both processes on it after which an append lacks the one character of its terminator |
| LineTransfer.DeliversIffSafe | server/client.c:101-144 | a line is printed intact if and only if it has no NUL and its last chunk is not BEGIN, END or DONE |
| LineTransfer.NewlineIsSafe | server/server.c:117-138 | NUL-free newline-terminated lines are safe |
| LineTransfer.EndLineIsLost | server/client.c:119-124 | the line END without newline is printed as an empty record |
| LineTransfer.TransferIsSafe | server/server.c:105-149 | in every reachable state the printed records are a prefix of the lines and at most one request is outstanding |
| LineTransfer.StuckMeansDone | server/server.c:105-149 | a run that cannot go on has ended with DONE and printed exactly all lines |
| LineConservation.AlwaysBalanced | server/server.c:105-149 | in every reachable state, whatever the lines, the text printed, held by the client, on its way and not yet sent is no more than what the lines read carry |
| LineConservation.OnlySafeLinesArrive | server/client.c:72-154 | if in any reachable state the records printed are the lines, all nonempty, then every line is safe |
| LineConservation.StuckDeliversIff | server/server.c:105-149 | a run on nonempty lines that cannot go on has printed exactly all lines if and only if all are safe |
| LineTransfer.RunsEnd | server/client.c:72-154 | every run ends, whatever the lines: an explicit bound on its length |
| LineStatistics.ExtremesAreExtreme | flycapture.2.6.3.4_armhf/src/FlyCap2_ARM/HistogramWindow.cpp:592-606 | running minimum and maximum are attained and bound every sample |
| LineStatistics.MeanIsBetween | flycapture.2.6.3.4_armhf/src/FlyCap2_ARM/HistogramWindow.cpp:597-610 | without overflow, minimum <= mean <= maximum |
| LineStatistics.MeanIsRightIff | flycapture.2.6.3.4_armhf/src/FlyCap2_ARM/HistogramWindow.cpp:575-610 | the stored mean is the floored average if and only if the sum is below 2^32 |
| LineStatistics.SumFits | flycapture.2.6.3.4_armhf/src/FlyCap2_ARM/HistogramWindow.cpp:575-597 | up to 65537 samples of 16 bits cannot overflow the accumulator |
| LineStatistics.WhiteLineOverflows | flycapture.2.6.3.4_armhf/src/FlyCap2_ARM/HistogramWindow.cpp:575-610 | 65538 white samples give mean zero |
| LineStatistics.ExtremesAgree | flycapture.2.6.3.4_armhf/src/FlyCap2_ARM/HistogramWindow.cpp:553-675 | least column minimum equals least row minimum, and the same for maxima |
| LineStatistics.TotalsAgree | flycapture.2.6.3.4_armhf/src/FlyCap2_ARM/HistogramWindow.cpp:553-675 | adding up by rows or by columns gives the same total |
| RowColStats.AddSample | flycapture.2.6.3.4_armhf/src/FlyCap2_ARM/HistogramWindow.cpp:592-606 | one sample, first or later, with a 32-bit accumulator, keeps the running statistics |
| RowColStats.ChannelStats.Resize | flycapture.2.6.3.4_armhf/src/FlyCap2_ARM/HistogramWindow.cpp:901-920 | cut or padded with zeros, old entries kept |
| RowColStats.CalculateMonoColumn | flycapture.2.6.3.4_armhf/src/FlyCap2_ARM/HistogramWindow.cpp:553-613 | the vectors are the statistics of every column; without rows they stay as resized; colour vectors are cleared |
| RowColStats.CalculateMonoRow | flycapture.2.6.3.4_armhf/src/FlyCap2_ARM/HistogramWindow.cpp:615-675 | the same for rows |
| RowColStats.CalculateColorColumn | flycapture.2.6.3.4_armhf/src/FlyCap2_ARM/HistogramWindow.cpp:693-794 | the same by columns for grey, red, green and blue |
| RowColStats.CalculateColorRow | flycapture.2.6.3.4_armhf/src/FlyCap2_ARM/HistogramWindow.cpp:796-899 | the same by rows for the four channels |
| RowColStats.GreyColumnsWithinChannels | flycapture.2.6.3.4_armhf/src/FlyCap2_ARM/HistogramWindow.cpp:721-793 | grey minimum and maximum of a column lie within the extremes of its three channels |
| RowColStats.GreyRowsWithinChannels | flycapture.2.6.3.4_armhf/src/FlyCap2_ARM/HistogramWindow.cpp:823-893 | the same for the rows of row mode |
| PixelMemory.MonoReadBack | flycapture.2.6.3.4_armhf/src/FlyCap2_ARM/HistogramWindow.cpp:580-589 | samples of 8 or 16 bits laid out in memory, low byte first and rows padded with anything, are read back as exactly the grid the kernels summarise |
| PixelMemory.ColorReadBack | flycapture.2.6.3.4_armhf/src/FlyCap2_ARM/HistogramWindow.cpp:731-753 | the same for red, green and blue in either order with or without a fourth byte; grey is a tenth of blue plus six times green plus three times red |
| PixelMemory.OtherFormatsReadZero | flycapture.2.6.3.4_armhf/src/FlyCap2_ARM/HistogramWindow.cpp:578-589 | a kernel given the other kind of image reads zeros |
| RowColStats.MonoLinesFit | flycapture.2.6.3.4_armhf/src/FlyCap2_ARM/HistogramWindow.cpp:553-675 | no line overflows in images of up to 65537 by 65537 pixels, or 16843009 by 16843009 of eight bits |
| RowColStats.ModesAgree | flycapture.2.6.3.4_armhf/src/FlyCap2_ARM/HistogramWindow.cpp:553-675 | if no row or column overflows, what the two modes store has the same least minimum and greatest maximum, and rows times the column means (columns times the row means) miss the total by less than one a pixel |

## Left out

- Serial port, mutexes, events and threads: their implementations are not part of this model; they appear as a byte source, locks and a binary semaphore.
- `vn100.c`, `vn200.c` and the register getters and setters of `vndevice.c`: wrappers around tokenising and formatting of floating-point text.
- Listener callbacks and start and stop of the receive thread.
- What happens after a transaction has timed out: checking stays enabled, so that a late response can still signal.
- More than one user thread in a transaction at a time, and other writers on the port meanwhile.
- Transaction.VnDevice.ProcessReceivedPacket: an error packet without a second token hands a null pointer to the library, which the model takes to end the process; a number beyond the range of an int is cut to eight bits like any other; the error flag and its check are one step.
- Transaction.VnDevice.StartTransaction: covers the statements before the wait when the receive thread is idle; the interleavings are those of the state machine.
- Transaction.VnDevice.EnableResponseChecking: what a match of more than ten characters overwrites is not modelled; the state machine itself puts no limit on matches.
- AsyncText.ProcessAsyncData: the conversion of a field from text to a number is a parameter, and so are the numbers in `Snapshot.SnapshotIsOneDecode`, which take as many bytes as a binary packet brings.
- PacketDecoder.ProcessReceivedBinaryPacket: where the decoder runs past the buffer, the four bytes behind it are whatever they are in the array passed.
- Loss and reordering of datagrams, socket set-up, sleeping, printing of progress and allocation failure in server and client.
- LineTransfer.ReceiveRecord: a record starts empty, with or without BEGIN, although the client reallocates without writing a terminator; sizes are unbounded integers.
- LineTransfer.TransferIsSafe: over reliable channels and safe lines; which records a whole run with unsafe lines prints is not stated, beyond each record (`RecordPrinted`), their not being the lines (`StuckDeliversIff`) and the balance of text (`AlwaysBalanced`).
- RowColStats.CalculateColorColumn: the two loops over the four channels at the first pixel are one loop; offsets into the pixel data are unbounded integers.
- Drawing, widgets, signals and camera calls of the histogram window: size, stride, format and pixel bytes are inputs.
- Getter and setter of the binary output configuration, command-line tools, headers of other libraries and the Python viewers.
