# Verified model of the iDCU-IoT gateway's protocols

A Dafny model of the parts of the iDCU-IoT gateway that carry data: the mote
serial protocol with its CRC, byte stuffing, receiver, queues and
acknowledgements; the serial forwarder's packet stream and client list; and the
parsers, counters and encoders of the gateway's drivers. `dafny verify
dfyconfig.toml` checks every proof.

Code that changes things step by step is modelled by classes and methods with
loops. Each method is tied by its contract to functions on values, and the
properties are proved about those functions, for all inputs and all runs. What
such a function is, a theorem says in other terms, in the literal constants of the
code: a CRC is the loop on numbers, a receiver is what it delivers of the stretches
between sync bytes, a parse is a decomposition of the input.

| file | models |
|---|---|
| `Wrappers.dfy`, `Sequences.dfy`, `Bits.dfy` | optional values; sequences; bytes, 16-bit words and their bits |
| `Crc.dfy` | the theory of 16-bit CRCs: division, bursts, parity, residues, linearity |
| `CrcInC.dfy` | the same registers as numbers, with the operators of C |
| `SerialCrc.dfy` | the CRC of `src/serialsource.c` |
| `Framing.dfy` | its encoder and its receiver, and what they do to each other |
| `LineFormat.dfy` | the bytes of frames, and what the receiver delivers of any bytes, without naming its steps |
| `Inbox.dfy` | `process_packet`: queues and acks over whole histories |
| `SerialSource.dfy` | `src/serialsource.c` as it runs, on a device that splits and delays bytes |
| `StopAndWait.dfy` | `write_serial_packet` against its peer, over lossy channels |
| `SfStream.dfy`, `ClientList.dfy` | `src/sfsource.c` and `src/sf.c` |
| `PlcsParser.dfy` | `src/driver/PLCS_12.c`: the frames in the bytes received |
| `PlcsRows.dfy`, `PlcsRecords.dfy` | `src/driver/PLCS_12.c`: the columns of a frame in memory, as text and as records |
| `CStrings.dfy` | C strings, `strtok`, `atoi` and `src/lib/stringTrim.c` |
| `Modbus.dfy` | `src/driver/GN1200.c` |
| `Counters.dfy` | `src/IoTManager.c` and `src/driver/iDCU_IoT.c`, apart and end to end |
| `Unescape.dfy` | the in-place unescaping of `src/serialtonet.c` |

A byte is an integer from 0 to 255. A `uint16_t` CRC register is its sixteen
bits, so that shifts and exclusive ors are what they are in C. `UINT32` counters
are integers below 2^32. A position past the end of the bytes received counts as
not matching. Time limits, chunk sizes, partial writes and interruptions are
arbitrary: the methods of `Line.Device` and `SfStream.Descriptor` choose them
freely.

## What the proofs show about the code

Where a promise does not hold on all inputs, the model keeps the code as it is
and proves exactly when it does.

- A receiver in any state delivers every frame but possibly the first; the first
  is lost exactly if the receiver is in sync and has just seen an escape byte or
  has a full buffer. Only payloads of at most 123 bytes are ever delivered
  (`src/include/serialsource.h:11` speaks of 256): the closing sync byte of a
  128-byte body already finds the buffer too long. Oversized frames harm no other.
- `write_serial_packet` returning 0 proves that the peer has this packet if and
  only if no message still under way or queued carries the number about to be
  used. An ack that is 256 writes late is taken for the current one.
- The receive loop of `PLCS_12.c` does not depend on how bytes are split into
  chunks, over two chunks and over whole connections, if and only if no header
  that begins outside a frame straddles a split. Bytes lost at one split are not
  made up for at another.
- `strtok` puts the columns of a PLCS frame where they belong if and only if none
  is empty and no NUL ends the frame early.
- The rows of 32 bytes that columns are copied to hold the right columns, whatever
  these contain, if and only if there are 77, those read have at most 31 bytes, and
  no column from the 256th on reaches row 9, where the 8-bit row counter has come
  round. With columns of at most 31 bytes that means 77 to 264 columns; in a frame
  of 265 the last one is reported under id 100.
- A PLCS frame without such columns or empty ones reaches the tag server with every
  value under its id if and only if it has at least 77 columns, the first 77 hold no
  NUL, those read have at most 31 bytes, no trimmed value holds `;` or `:`, and the
  message has at most 1024 bytes. The code checks none of this.
- In `GN1200.c` a second reply in the same buffer is read if and only if at least
  one byte lies between the two and no header begins behind that byte (as long as
  no third reply lies between them).
- `write_sf_packet` and `read_sf_packet` are inverse on a list of packets if and
  only if none is longer than 255 bytes.
- The row in the database is the last counters if and only if the event that last
  changed them could begin its update, or the row held these counters already. An
  update that fails to begin is not made up for by repeated events.
- Quantities reported for a counter that never falls add up to last minus first
  if and only if the first counter polled is not zero, or all are; requests for the
  inputs in between change nothing.
- The input bit read by the client is `io[1]` unless bit 1 of `io[0]` is set.
- The in-place unescape counts the escapes of the payload if and only if the
  stale bytes in its window of 100 hold no escape byte; its payload is right anyway.
- A frame that a failed write cuts before its last byte is still delivered, although
  `write_serial_packet` returned -1: the next frame begins with the missing byte.
- `read_serial_packet` is documented to return NULL on a non-blocking source
  without data (`src/serialsource.c:617-619`). `serial_source_empty` always
  returns 0 (`src/serialsource.c:442`), so it waits instead; the model waits too.

## Model

| member | source | states |
|---|---|---|
| Bits.ByteBitsValue | src/serialsource.c:448-462 | The bits of a byte in either order are its binary digits, most or least significant first |
| Crc.ShiftsAreRun | src/serialsource.c:448-462 | Adding a byte to the register and shifting eight times is feeding its bits one at a time, for any register |
| Crc.Division | src/serialsource.c:448-472 | Feeding message bits to a register leaves a remainder of polynomial division over GF(2): a quotient exists |
| Crc.RemainderUnique | src/serialsource.c:448-472 | No other sixteen bits are such a remainder |
| Crc.WindowDetected | src/serialsource.c:448-472 | Messages of any length that differ only within sixteen consecutive bits, at any offset, have different CRCs |
| Crc.RunParity | src/serialsource.c:448-472 | The weight of the register has the parity of the message, for a polynomial that x + 1 divides |
| Crc.ResidueZero | src/driver/GN1200.c:121-134 | Exactly one sixteen-bit string clears a register |
| SerialCrc.PolyIs0x1021 | src/serialsource.c:456 | The polynomial is the constant of the code |
| SerialCrc.CrcIsRemainder | src/serialsource.c:464-472 | crc_packet is the remainder of message * x^16 by x^16 + x^12 + x^5 + 1, and the only one |
| SerialCrc.CrcByteInC | src/serialsource.c:448-462 | The register as a number changes as crc ^ b << 8 and eight conditional shifts with 0x1021 change it |
| SerialCrc.CrcPacketInC | src/serialsource.c:464-472 | crc_packet is that loop on numbers over all bytes, from 0 |
| SerialCrc.TrailerInC | src/serialsource.c:711-712 | The two bytes sent are the low and the high byte of that number, in this order |
| SerialCrc.CheckValue | src/serialsource.c:448-472 | The CRC of the byte 1 is 0x1021 |
| SerialCrc.CheckedIffTrailer | src/serialsource.c:572-579 | The receiver accepts exactly one trailer after given bytes, the one the encoder sends |
| SerialCrc.BurstsAreDetected | src/serialsource.c:572-588 | Two bodies with one trailer that differ within sixteen consecutive bits are never both accepted |
| SerialCrc.AdjacentBytesAreDetected | src/serialsource.c:572-588 | The same for one or two adjacent wrong bytes |
| SerialCrc.OddErrorsAreDetected | src/serialsource.c:572-588 | An odd number of wrong bits anywhere in a body, trailer included, is always detected |
| SerialCrc.CrcPacketLinear | src/serialsource.c:464-472 | crc_packet is linear over exclusive or on messages of one length |
| Bits.FlipIsXor | src/serialsource.c:547 | Escaping changes exactly the bit of 0x20 |
| Framing.ReceiverInvariant | src/serialsource.c:514-593 | For every byte stream the buffer stays within the MTU and only bodies of 2 to 125 bytes are passed on |
| Framing.FrameFitsBuffer | src/serialsource.c:651-682 | A frame never exceeds the allocated 2 * (count + 4) + 2 bytes, and fills them exactly if every byte is escaped |
| Framing.FrameDelimited | src/serialsource.c:646-714 | A frame has sync bytes at both ends and nowhere else |
| Framing.FrameDecodes | src/serialsource.c:691-714 | What lies between unstuffs uniquely to type, first byte, payload and CRC |
| Framing.FrameHeard | src/serialsource.c:520-592 | From any receiver state: exactly when a frame is delivered, what else is heard, and that the receiver is ready afterwards |
| Framing.CutFrameHeard | src/serialsource.c:569-592 | A frame without its closing sync byte is delivered by the opening sync byte of the next, which is delivered too |
| Framing.StreamHeard | src/serialsource.c:520-592 | A ready receiver delivers exactly the packets that fit, in order, from any list of frames |
| Framing.SelfSynchronisation | src/serialsource.c:520-592 | After any bytes in any state, all frames that follow are delivered except possibly the first, with the exact condition for losing it |
| LineFormat.FrameIs | src/serialsource.c:646-714 | The bytes of every frame: 7e, body and CRC with 7e and 7d as 7d 5e and 7d 5d, 7e |
| LineFormat.ReceiverDelivers | src/serialsource.c:514-593 | For every byte stream: exactly the intact stretches between sync bytes are delivered, with the CRC on numbers, except those whose opening sync byte the stretch before has swallowed |
| LineFormat.BodyDelivered | src/serialsource.c:520-592 | A receiver between frames delivers any 4 to 127 bytes sent as a body exactly if the last two are the CRC of the others |
| LineFormat.OddDamageIsSilent | src/serialsource.c:572-588 | Nothing is delivered of a frame with an odd number of wrong bits, CRC included |
| LineFormat.AdjacentDamageIsSilent | src/serialsource.c:572-588 | Nothing is delivered of a frame with one or two adjacent wrong bytes under the CRC |
| LineFormat.UnstuffIsContent | src/serialsource.c:536-551 | Unstuffing front to back and reading off what a stretch stands for agree on all bytes |
| Inbox.OneBody | src/serialsource.c:596-612 | Type 65 is filed as 66 without its first byte, which an ack of type 64 returns; every other type is filed as it is |
| Inbox.FiledShape | src/serialsource.c:596-612 | Queue 65 stays empty and only queue 66 can hold empty packets, so the ack byte read at line 763 exists |
| Inbox.StreamRoundTrip | src/serialsource.c:596-612 | The frames of any packets fill every queue with exactly what is owed to its readers and cause exactly the acks owed |
| SerialSource.ComputeCrcByte | src/serialsource.c:448-462 | The shift loop computes crc_byte, as a register and as a number |
| SerialSource.ComputeCrcPacket | src/serialsource.c:464-472 | The byte loop computes crc_packet, as a register and as a number |
| SerialSource.Source.constructor | src/serialsource.c:275-284 | A fresh source satisfies the invariant, with number 37 and nothing received |
| SerialSource.Source.SourceWrite | src/serialsource.c:358-390 | All bytes are written whatever parts write takes, or a prefix and a failure is reported |
| SerialSource.Source.EscapeByte | src/serialsource.c:672-682 | One byte is appended stuffed, and the running CRC covers it unstuffed |
| SerialSource.Source.WriteFramedPacket | src/serialsource.c:691-727 | Exactly the frame of type, first byte and payload is written, within the buffer allocated |
| SerialSource.Source.ReadByte | src/serialsource.c:475-507 | The next pending byte is returned whatever chunks read gives, and -1 only if there is none |
| SerialSource.Source.Receive | src/serialsource.c:521-591 | The fields and the packet buffer change as one step of the receiver, and a body is accepted exactly when the step does |
| SerialSource.Source.ProcessPacket | src/serialsource.c:596-612 | The packet is filed under its type and the ack written when asked for, in full unless the device fails |
| SerialSource.Source.ReadAndProcess | src/serialsource.c:514-593 | Reads up to one packet or all there is, keeps the history invariant and answers with exactly the acks owed |
| SerialSource.Source.PopProtocolPacket | src/serialsource.c:415-423 | Takes the oldest packet of one type and touches no other queue |
| SerialSource.Source.SourceWait | src/serialsource.c:313-356 | No byte is lost or reordered while waiting; true means there is something to read, false that the deadline has passed with nothing left in the buffer |
| SerialSource.Source.ReadSerialPacket | src/serialsource.c:614-642 | Returns the oldest packet for the reader, or only blocks when all input holds none; reading stops at the first such packet, or after one packet if one was queued; every packet heard is filed in order and acked, in full or, if writes fail, in part |
| SerialSource.Source.AwaitAck | src/serialsource.c:755-772 | Pops acks until one carries the current number, and reads no further than it; 1 only after the deadline has passed with no match among all acks heard, none queued and no byte left unread in the buffer |
| SerialSource.Source.WriteSerialPacket | src/serialsource.c:741-773 | Writes the frame under the next number, or a front part of it before returning -1; returns 0 exactly on its ack, at once if that has arrived first; packets of other types that arrive meanwhile are kept in order, and those heard are acked |
| SerialSource.SourceHolds | src/serialsource.c:392-423 | For every byte stream and pattern of calls, packets popped and still queued are exactly what the intact stretches between sync bytes are filed as |
| SerialSource.SourceDelivers | src/serialsource.c:392-423 | However bytes were split and whatever was called, packets popped and still queued are exactly those owed for the frames processed |
| SerialSource.SourceResynchronises | src/serialsource.c:520-592 | The same after any garbage before the frames |
| StopAndWait.RunKeeps | src/serialsource.c:741-773 | Every step of every run, calls whose write fails included, keeps the invariant over numbers, channels, queue and results |
| StopAndWait.PeerIsFaithful | src/serialsource.c:596-612 | In every run the peer enqueues written payloads only, at most once and in order, and every ack belongs to one it enqueued |
| StopAndWait.SuccessIsTruthIffNumberFree | src/serialsource.c:749-768 | A result of 0 is certain to be true if and only if no message under way or queued has the number about to be used |
| StopAndWait.FreeCallSucceedsIffFits | src/serialsource.c:749-772 | With a free number a call can return 0 if and only if the payload has at most 123 bytes |
| StopAndWait.YoungMessagesAreFree | src/serialsource.c:749-768 | The number is free if no message is 256 or more writes old |
| StopAndWait.EverySuccessIsTrue | src/serialsource.c:749-768 | In every run in which each call finds its number free, every 0 returned is true |
| StopAndWait.SuccessCanBeFalse | src/serialsource.c:767-768 | A run from the start in which a 0 returned is false |
| StopAndWait.FirstMatchEndsTheCall | src/serialsource.c:755-772 | The pops of a call pass over acks with other numbers and end with 0 at the first that matches; without one only a timeout ends the call |
| StopAndWait.DataOnTheLine | src/serialsource.c:596-612 | The data channel is the serial line: frames that arrive are enqueued and acked as the state machine says |
| StopAndWait.AcksOnTheLine | src/serialsource.c:759-767 | The ack channel is the serial line: ack frames that arrive become the numbers that are compared |
| SfStream.EncodeOneMore | src/sfsource.c:166-179 | Packets written one after the other form the stream that is read back |
| SfStream.StreamRoundTrip | src/sfsource.c:139-179 | Reading back any list of written packets gives the same list and rest if and only if none exceeds 255 bytes |
| SfStream.Descriptor.SafeRead | src/sfsource.c:14-36 | Reads all that was asked for unless the peer closes, under every schedule of short reads and retries |
| SfStream.Descriptor.SafeWrite | src/sfsource.c:38-56 | Writes all bytes under every schedule of short writes and retries |
| SfStream.Descriptor.ReadSfPacket | src/sfsource.c:139-164 | Returns the next packet of the stream, behind one byte with its length, and consumes exactly both; none only if the stream ends within it or a call has failed |
| SfStream.Descriptor.WriteSfPacket | src/sfsource.c:166-179 | Writes the length as one byte and as many bytes of the packet, or a front part of them when a call fails |
| ClientList.Server.AddClient | src/sf.c:68-78 | The client is put in front and the count kept |
| ClientList.Server.RemClient | src/sf.c:80-89 | Exactly the client behind the link is unlinked, through either kind of link, and closed |
| ClientList.Server.CheckClients | src/sf.c:99-129 | Each ready client is read once and in order, its packet forwarded; exactly those that fail are removed and closed, the others keep their order |
| ClientList.Server.DispatchPacket | src/sf.c:139-149 | Each client is written to once and in order; exactly those that fail are removed and closed |
| ClientList.KeptIsExact | src/sf.c:99-149 | A client stays if and only if it is in the list and did not fail |
| ClientList.KeptAppend | src/sf.c:99-149 | Each client stays or goes by itself, in the order of the list |
| ClientList.SelectAppend | src/sf.c:99-149 | Descriptors are read, written and closed one by one in that order |
| ClientList.PacketsAppend | src/sf.c:99-129 | Packets are forwarded one by one in that order |
| ClientList.NothingLost | src/sf.c:99-149 | The descriptors before are those kept and those closed, with multiplicity |
| PlcsParser.ParsingReceiveValue | src/driver/PLCS_12.c:232-341 | The index-driven loops find the frames and the remainder of the parsing function |
| PlcsParser.ParseIff | src/driver/PLCS_12.c:232-341 | Frames and remainder are exactly those for which the bytes are junk without the header, frames with header and CR in turn, and then nothing or an open frame |
| PlcsParser.RestIsOpenFrame | src/driver/PLCS_12.c:303-341 | A remainder that is not empty starts with the header and has no CR |
| PlcsParser.ChunkInvariance | src/driver/PLCS_12.c:154-174 | Splitting the bytes in two changes neither frames nor remainder if and only if the first chunk ends in a frame or no header straddles the split |
| PlcsParser.SessionIsParseIff | src/driver/PLCS_12.c:121-204 | Any number of chunks gives the frames and the remainder of the whole if and only if the splits are clean |
| PlcsParser.StraddlingLoses | src/driver/PLCS_12.c:232-341 | A header that straddles a split outside a frame costs bytes of frames or remainder |
| CStrings.StrTok | src/driver/PLCS_12.c:259-269 | The scanning loops return the next non-empty run between delimiters before the NUL, and what the next call continues with |
| CStrings.ColumnsInPlaceIff | src/driver/PLCS_12.c:259-269 | strtok yields the columns in place if and only if none is empty and there is no NUL |
| CStrings.TrimIs | src/lib/stringTrim.c:7-47 | Trimming leaves what is between the blanks at both ends, or one blank if there is nothing else |
| CStrings.AtoiIs | src/driver/PLCS_12.c:382 | Blanks, digits and a rest without a digit in front: the decimal value |
| PlcsRows.StoreColumns | src/driver/PLCS_12.c:249-269 | The loop of strtok and strcpy fills the memory of the rows, overlong tokens and the 8-bit counter included, as the storing function says |
| PlcsRows.RowHoldsLast | src/driver/PLCS_12.c:226-269 | With tokens of at most 31 bytes and any number of them, each row holds the last token copied to it |
| PlcsRows.RowHoldsToken | src/driver/PLCS_12.c:226-277 | With tokens of any length, a row that no later token comes back to holds its token, or no end of a text if the token exceeds 31 bytes |
| PlcsRows.InPlaceIffSafe | src/driver/PLCS_12.c:226-277 | For which column lengths the rows read hold their columns whatever these contain: the exact condition |
| PlcsRows.AtMost264Columns | src/driver/PLCS_12.c:228-267 | For columns of at most 31 bytes the condition is 77 to 264 columns |
| PlcsRows.SomeRowUnreadable | src/driver/PLCS_12.c:261-278 | When the tokens end before row 63, what overlong ones leave in later rows never makes all rows readable |
| PlcsRecords.FormatFields | src/driver/PLCS_12.c:272-285 | The loop formats the 68 trimmed rows under their ids and counts them, if every row read holds a text that is not empty |
| PlcsRecords.ShowIs | src/driver/PLCS_12.c:279 | A field is written as three decimal digits, a colon, its value and a semicolon |
| PlcsRecords.ColumnArrives | src/driver/PLCS_12.c:272-285 | The field of column n has id 91 + n and its trimmed text, which is the column itself without blanks at its ends |
| PlcsRecords.FieldsRecoveredIffPlain | src/driver/PLCS_12.c:364-385 | Splitting the formatted text recovers every id and value if and only if there are 1 to 256 and each value is not empty, has no delimiter and no NUL, and fits its row |
| PlcsRecords.RecordsRoundTrip | src/driver/PLCS_12.c:377-393 | The binary records decode to the fields they were made of and their time |
| PlcsRecords.MessageExample | src/driver/PLCS_12.c:364-393 | The bytes of the message for one field |
| PlcsRecords.TextToRecords | src/driver/PLCS_12.c:344-394 | From text to message: the exact condition for the message to hold the fields, which it then decodes to; data_num is 1 plus 8 plus length for each |
| PlcsRecords.SelectTag | src/driver/PLCS_12.c:344-394 | For any text and count, the buffer is filled with exactly the message of the fields recovered, whose size is returned, if all are recovered and it fits |
| PlcsRecords.HandleFrame | src/driver/PLCS_12.c:248-291 | Formatting and tagging together send the message of the fields delivered |
| PlcsRecords.FrameDelivered | src/driver/PLCS_12.c:248-291 | The exact condition for the tag server to get the columns of a frame under their ids, for all frames without empty columns and columns that come back to the rows read |
| PlcsRecords.ShortColumnsArrive | src/driver/PLCS_12.c:228-291 | What arrives of a frame with any number of columns of at most 31 bytes: the last column copied to each row |
| PlcsRecords.ColumnTooMany | src/driver/PLCS_12.c:228-291 | A frame of 265 columns whose last column arrives under id 100 |
| Modbus.ComputeCrc16 | src/driver/GN1200.c:121-134 | The nested loops compute the reflected CRC with initial value 0xffff |
| Modbus.PolyIs0xA001 | src/driver/GN1200.c:27 | The polynomial is the constant of the code |
| Modbus.Crc16InC | src/driver/GN1200.c:121-134 | On numbers, CRC16 is crc ^ b and eight conditional right shifts with 0xA001 for each byte, from 0xffff |
| Modbus.GenuineIsResidue | src/driver/GN1200.c:276-290 | The header 01 03 08 and the two CRC bytes, low byte first, are the same as header and zero residue |
| Modbus.ResidueIsZeroIffCrc | src/driver/GN1200.c:286-290 | Appending two bytes leaves a zero CRC if and only if they are the CRC, low byte first |
| Modbus.Parse | src/driver/GN1200.c:258-337 | The loop takes the readings and the remainder that the scanning function describes |
| Modbus.ReadingsAreGenuine | src/driver/GN1200.c:274-304 | Whatever the buffer, every reading comes from thirteen bytes with the header and a zero residue |
| Modbus.SingleReply | src/driver/GN1200.c:274-336 | A buffer of one reply yields its reading if and only if header and CRC are right, and is consumed |
| Modbus.DamagedReplyRejected | src/driver/GN1200.c:276-312 | One or two adjacent wrong bytes anywhere in a reply, CRC included, suppress its reading |
| Modbus.SecondReplyIff | src/driver/GN1200.c:274-330 | A second reply in the same buffer, behind a gap in which no third is taken, is read if and only if the gap is not empty and no header begins behind its first byte |
| Words.MixedOfToMixed | src/IoTManager.c:770-773 | The mixed byte order of the server is inverted by the client's decoding |
| Gateway.Manager.ReceiveEvent | src/IoTManager.c:582-648 | Counter i is the four bytes at 4 + 6i, high byte first, and level i the byte at 52 + 3i; the row changes as one event of a run does; an event of type 1 changes nothing; past and current counters agree afterwards |
| Gateway.Manager.GetCommStatus | src/IoTManager.c:741-809 | The reply built has its header and the counters of all eight ports, each in the mixed byte order at 9 + 4j |
| Gateway.Manager.GetIOStatus | src/IoTManager.c:703-738 | The reply built has its header and a byte whose bit k is set exactly if some level shifted to its port has it set |
| Gateway.LevelsApart | src/IoTManager.c:703-729 | With levels 0 and 1, bit k is the level of port k + 1 |
| Gateway.RowAfterAppend | src/IoTManager.c:622-643 | Over any run of events only the row and the counters carry over from earlier events to later ones |
| Gateway.RowIsLastIff | src/IoTManager.c:622-643 | After any run with a change, the row is the last counters if and only if the event that last changed them could begin its update or the row held them already |
| Gateway.NoChangeNoUpdate | src/IoTManager.c:622-643 | A run without such an event leaves counters and row as they were |
| Gateway.RowIsLast | src/IoTManager.c:622-643 | So after any run of events in which no due update is lost, the row is the last counters |
| Gateway.LostUpdateStays | src/IoTManager.c:622-643 | An update that fails to begin is not made up for by repeated events |
| IoTClient.Client.SelectTag | src/driver/iDCU_IoT.c:302-478 | preQty stays the decoded cntPastData, and a report is made exactly when the state machine makes one |
| IoTClient.Client.Parse | src/driver/iDCU_IoT.c:253-300 | The loop handles exactly the frames of the scanning function and keeps what it keeps |
| IoTClient.OneFrame | src/driver/iDCU_IoT.c:253-348 | What the client does with any buffer of one frame: which lengths it accepts and what each type means |
| IoTClient.NoHeaderNoReport | src/driver/iDCU_IoT.c:253-300 | Without 01 02 nothing is reported and what is kept stays |
| IoTClient.CommReplyDecodes | src/driver/iDCU_IoT.c:269-291 | A counter reply passes the length check, is consumed entirely and decodes to the stored port-1 counter |
| IoTClient.IOReplyDecodes | src/driver/iDCU_IoT.c:332-348 | An input reply is consumed entirely and tells io[1], with the exact condition on io[0] |
| IoTClient.OnCountReports | src/driver/iDCU_IoT.c:395-451 | Reports are positive, made exactly on a rise from a counter other than zero, and the last counter is remembered |
| IoTClient.Accounting | src/driver/iDCU_IoT.c:395-451 | For every run of counters, reported plus missed equals last minus first plus fallen |
| IoTClient.Conservation | src/driver/iDCU_IoT.c:395-451 | For a run that never falls, reported is last minus first if and only if the first is not zero or none is |
| IoTClient.PolledIsCurrent | src/IoTManager.c:622-643 | Over any interleaving of events and polls each poll is answered with the counters of the latest event |
| IoTClient.ServedArePolls | src/driver/iDCU_IoT.c:253-300 | Encoding, parsing and decoding leave the counters as they were, and input requests in between change no quantity |
| IoTClient.EndToEndConservation | src/IoTManager.c:741-809 | Events, storage, encoding, parsing and deltas together, with counter and input requests in any order: what is reported is what port 1 counted between the first request and the last, if and only if the first count is not zero or none is |
| Unescape.UnescapeInPlace | src/serialtonet.c:188-196 | The shift loop changes the array as the recursive description says |
| Unescape.PayloadIsUnstuffed | src/serialtonet.c:188-196 | The front of the buffer holds the unstuffed payload whatever is stale behind it; the count is right if and only if the stale bytes in the window hold no escape byte |
| Unescape.InPlaceInvertsStuffing | src/serialtonet.c:188-213 | The loop inverts the escaping of the serial protocol whatever is stale behind it, with the exact condition for its count |

## Left out

- Opening and configuring devices, sockets, termios, select, threads, signals and logging: not modelled; a device or descriptor is a sequence of bytes with arbitrary division and timing.
- Memory allocation: nothing fails to allocate, and the receive state starts zeroed as the code intends.
- SerialSource.Source.SourceWrite: an interrupted write is not a separate step, because it changes nothing.
- SerialSource.Source.PopProtocolPacket: a queue is a sequence in a map from types, not linked entries; linked entries edited in place are modelled in `ClientList`.
- SerialSource.Source.ReadByte: a read error other than "no data" is not modelled; the code reports it and tries again without end.
- SerialSource.Source.ReadSerialPacket: a call that blocks for good returns None.
- SerialSource.Source.WriteSerialPacket: the deadline is an arbitrary point in time, since clock arithmetic is left out.
- SerialCrc.BurstsAreDetected: bursts that reach from the payload into the trailer are not covered, because the trailer is sent low byte first.
- StopAndWait.RunKeeps: a frame cut short by a failed write arrives whole or not at all; that a shorter part of it ends in its own CRC by chance is not modelled.
- PlcsParser.SessionIsParseIff: the buffer limit of the receive loop, which drops everything received, is not modelled.
- CStrings.StrTok: the NUL that replaces a delimiter in the string is not modelled, since no string is read again after it was split.
- PlcsRecords.FormatFields: an empty text or one that runs out of its row gives no result, since the code then trims memory whose contents are not known; `trim` is a function on strings, without its buffer on the stack.
- PlcsRecords.SelectTag: no result where a row was not written, a token exceeds its row of 256 bytes or the message its buffer, since the code checks none of these; an id is an integer of any size before it is cut to a byte.
- PlcsRecords.FrameDelivered: frames with an empty column, or with one that comes back to a row that is read, are covered by `CStrings.ColumnsInPlaceIff`, `PlcsRows.InPlaceIffSafe` and `PlcsRecords.ShortColumnsArrive` instead, because two columns with the same text hide a mix-up.
- Gateway.Manager.ReceiveEvent: the thread that an event of type 1 starts is left out; the bytes behind a short event are those in the caller's buffer, which the code reads too; committing a transaction always succeeds in the end.
- IoTClient.Client.SelectTag: a report holds numbers, not the decimal text sent to the tag server; replies too short for their type are ignored, where the code reads stale bytes.
- Unescape.UnescapeInPlace: the overlapping memcpy is taken to move bytes as memmove does.
- The handshake of the serial forwarder (`init_sf_source`), opening connections and the platform number.
- Near copies of the modelled drivers (`PLCS_10.c`, `PLCS_12ex.c`), `CommManager.c`, `UartManager.c`, `sfsock.c`, XML, configuration and database code.
