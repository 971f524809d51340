# libwebsockets 2.2.1: a model of its hard parts in Dafny

libwebsockets is a C library for websocket clients and servers. This project models the parts of its
version 2.2.1 in which small steps have to add up to a large promise, and proves the promise for every
input and every order of events. `dfyconfig.toml` names all its
files, for `dafny verify dfyconfig.toml`.

Code that works on fields and buffers in place is modelled in place: classes, arrays and loops, each
method proved against a function of the state it finds. The properties are then proved of those
functions.

| part | modules | main results |
|---|---|---|
| the client's receive machine | `ClientRx`, `ClientParser`, `Delivery`, `CloseFrame`, `RxRefusals`, `MaskedFrame`, `RxRoom`, `Utf8` | messages arrive exactly as sent, over every fragmentation and every split into reads; frame sequences are accepted exactly if section 5.4 of RFC 6455 allows them; text is refused exactly if it is not UTF-8; what is refused, and what is left behind then; the rx buffer suffices exactly unless payload follows a refusal |
| the closing handshake | `Closing`, `CloseCalls`, `Masks`, `PingClose`, `ClientParser` | at most one CLOSE frame and exactly one end report over every interleaving of events; every close call that is not put off makes progress, and none gives up unsent bytes; what a close call says, and when it ends the connection, exactly; a close reason survives everything that arrives, and is what the CLOSE says exactly unless a waiting PONG masks it first; every PONG answers the first PING since the last |
| the timeout list | `TimeoutList` | the doubly linked list stays well formed under any calls, also while it is swept; the sweep closes all that timed out, exactly unless a close takes its saved successor, and a timeout is kept exactly until its time is up |
| minilex | `Trie`, `TrieLimits`, `LexTable`, `LexStrings`, `Minilex` | every string of a prefix-free set decodes to its index, what happens to every other string, and a table is made exactly if the set fits |
| permessage-deflate | `PmDeflate` | no byte is lost or repeated across held-back bytes; exactly the last four bytes of a message are trimmed, and put back before inflating; the last option set decides each argument |
| extension options | `ExtOptions`, `OptionRoundTrip`, `OptionFaults` | printed options parse back to themselves; every kind of fault behind them is refused, and what is accepted all the same |
| zip files | `ZipScan`, `ZipWrite`, `ZipContents`, `GzipView` | the scan finds the data of the first file of a name, and names the damage that stops it; the gzip view is header, content and trailer over any reads |
| base64 and URL encoding | `Base64`, `UrlCode` | round trips with the exact buffer sizes they need; every spelling of a URL-encoded text |
| the stream JSON parser | `LejpStep`, `LejpRun`, `LejpString`, `LejpTree`, `LejpRejects`, `Lejp` | it ends, within its stack and buffer; pieces of input do not matter; a JSON tree is reported exactly as it is, exactly if it is one that the parser takes; in every state, which characters are refused and why |

`Bytes` holds what the modules share.

## Reading the model

- A callback, the socket, the source of masks, zlib and extensions answer through parameters, so every theorem
  holds for every answer unless it names one.
- A connection is a websocket client without an extension, in the modes that the receive and close code
  share; time is a parameter.
- Lengths are unbounded integers; the 64-bit length field, the 16-bit jumps of minilex and the unsigned char
  fields are written out where the code depends on them.
- A C string is the sequence of its characters, without the terminator.

Where the code does not do what its documentation or its intent says, the model follows the code, and the
exact condition is proved:

- The short-length branch of the receive machine takes the mask bit as part of the length; the length of a masked
  frame is right exactly in the two long forms (`MaskedFrame.MaskedLengthRun`, `MaskedFrame.ShortMaskedFrame`).
  The delivery theorems are about unmasked frames, which is what section 5.1 of RFC 6455 makes a server send.
- The index into the mask is never reset for a received frame: a masked payload is stored right exactly if the index
  finds the same mask bytes as zero would (`MaskedFrame.StoredRight`, `MaskedFrame.StoredWrong`).
- A header byte that is refused still leaves its mark: after a refused TEXT or BINARY a CONTINUATION without a message
  is taken (`RxRefusals.RefusedByte`, `RxRefusals.ContinuesRefused`).
- A spill that is refused leaves the rx buffer as it is, and `lws_read` goes on in the shutdown state; payload bytes
  stay within the buffer exactly if none comes after a refusal that left it full (`RxRoom.RoomTheorem`,
  `RxRoom.ByteAfterRefusal`). The methods that store bytes ask for no more than that.
- `lws_close_reason` does not look for a PING that waits in the shared buffer; its PONG is right exactly if the
  reason does not change it (`PingClose.ReasonOverPing`).
- `lws_write` masks a payload in the caller's buffer, so the PONG of that PING also destroys the reason: the CLOSE
  says the reason over every run if no PING with a payload waited when it was set (`PingClose.ReasonSurvives`), and
  after such a PONG exactly if the mask was zero on the bytes both have (`PingClose.ReasonAfterPong`); for a run in
  which status 1000 becomes another, see `PingClose.ReasonLost`.
- The sweep of the timeout list saves the successor before a close, which also closes the children; it stays on the
  list exactly if none of its closes takes the saved successor (`TimeoutList.PerThread.Visit`,
  `TimeoutList.PerThread.Sweep`), and always does if no children are on the list (`TimeoutList.ChildlessSweep`).
- The text behind a close code may end inside a character (`CloseFrame.CloseFrameRun`).
- The decoder of minilex does not know its own fail marker: a string outside the set is refused where only one
  character can follow what it shares with the set, and is read on with inside the table where several can
  (`LexStrings.EveryString`, `LexStrings.ReadsOn`); there it is always accepted if several characters can follow the
  first of these too, and otherwise mostly decoded as another string (`LexStrings.ReadsInside`,
  `LexStrings.StandsIn`, `LexTable.NonMemberAccepted`).
- minilex does not look at the ends of its arrays; the model stops there, exactly if the set does not fit
  (`Minilex.Lexer.Compile`). As the index of a string is stored in a char, sets have at most 128 strings.
- A TX call of permessage-deflate with held bytes and no new output sends one of them on and forgets the others
  (`PmDeflate.TxKeeps`).
- permessage-deflate allocates its buffers once and reads their sizes at every call; a later size stays within the
  buffer exactly if it is not larger, but for very small ones (`PmDeflate.LaterFits`).
- A quoted option value that ends the input is passed on with its closing quote
  (`OptionRoundTrip.TextsAreDigits`), and so is any one character between a value and the end of the input
  (`OptionFaults.OneMoreInValue`).
- At the end of the input an option that needs a value is set without one; with one space or comma behind its name no
  option is set, and with any other character one that needs no value is (`OptionFaults.NameAtEnd`,
  `OptionFaults.OneMoreAtEnd`). An option without a value before a comma is not set (`OptionFaults.CommaAfterName`).
- `lws_urlencode` writes a terminator even into a length of 0 (`UrlCode.StaysWithin`).
- The base64 decoder needs two bytes more than it writes (`Base64.RoundTrip`).
- `lejp_parse` rejects every document with an empty object or array (`LejpTree.TreeTheorem`).
- A u escape of lejp puts out the UTF-8 of its number exactly if no letter stands behind a digit other than 0
  (`LejpString.HexExactly`).
- A number of lejp with an exponent is reported as an integer, and its sign needs no digit (`LejpRejects.ExponentNumber`);
  a closing brace also ends an array (`LejpRejects.BraceInArray`); a positive answer to the end of a string and any
  answer to the end of an array are ignored (`LejpRejects.CallbackDecides`).
- `lejp_parse` never reports a number with a point, rejects negative numbers and numbers of more than ten digits,
  and returns its rejection reasons as positive numbers (`LejpRun.NeverAFloat`, `LejpRun.NoNegative`,
  `LejpRun.WholeNumber`, `LejpRun.Mistakable`).

## Model

| member | source | states |
|---|---|---|
| `Utf8.CheckUtf8` | libwebsockets-2.2.1/lib/libwebsockets.c:1608-1663 | The byte loop returns 1 exactly if the scan of the buffer from the given state byte fails; the state byte is replaced by the state reached only on success. |
| `Utf8.ScanConcat` | libwebsockets-2.2.1/lib/libwebsockets.c:1608-1663 | Checking two pieces one after the other is checking their concatenation. |
| `Utf8.CharHead` | libwebsockets-2.2.1/lib/libwebsockets.c:1611-1656 | A first byte and what follows are one character of the grammar of section 4 of RFC 3629 exactly if the state chosen from the first byte counts that many tail bytes and allows their ranges. |
| `Utf8.WellFormedHead` | libwebsockets-2.2.1/lib/libwebsockets.c:1643-1657 | Text is well formed exactly if the first byte is accepted and the rest finishes the character it starts and is well formed after it. |
| `Utf8.FinishesStep` | libwebsockets-2.2.1/lib/libwebsockets.c:1652-1657 | In every state, one byte is accepted and leaves a state that the rest finishes, exactly if the whole finishes the character the state is in. |
| `Utf8.ScanIsWellFormed` | libwebsockets-2.2.1/lib/libwebsockets.c:1608-1663 | The checker ends in state 0 exactly on the well-formed texts of RFC 3629. |
| `Utf8.ScanIsViable` | libwebsockets-2.2.1/lib/libwebsockets.c:1608-1663 | The checker has not failed exactly while the text can still be completed to a well-formed one. |
| `ClientRx.Run` | libwebsockets-2.2.1/lib/client.c:35-59 | Over any bytes, from any connection state, the shared ping and close buffer and the lengths kept for it stay within their 125 bytes. |
| `ClientParser.Wsi.TakeOpcode` | libwebsockets-2.2.1/lib/client-parser.c:60-99 | What an opcode does to the binary, continuation and UTF-8 fields, or its refusal, as the step machine has it. |
| `ClientParser.Wsi.RxNew` | libwebsockets-2.2.1/lib/client-parser.c:52-139 | The first header byte: refusal of reserved bits, unknown opcodes, fragmented control frames and frames out of order, else the new header fields, as the step machine has them. |
| `ClientParser.Wsi.RxHdrLen` | libwebsockets-2.2.1/lib/client-parser.c:148-201 | The length byte and the 16-bit length, with the form a control frame must use. |
| `ClientParser.Wsi.RxLen64` | libwebsockets-2.2.1/lib/client-parser.c:203-267 | The eight bytes of a 64-bit length, with the refusal of the top bit. |
| `ClientParser.Wsi.RxKey` | libwebsockets-2.2.1/lib/client-parser.c:269-302 | The four bytes of a mask. |
| `ClientParser.Wsi.BeginPayload` | libwebsockets-2.2.1/lib/client-parser.c:165-179 | A known length: payload comes next, or an empty frame is spilled at once. |
| `ClientParser.Wsi.RxPayload` | libwebsockets-2.2.1/lib/client-parser.c:304-332 | A payload byte for which the rx buffer has room is stored there, unmasked, and spills the buffer at the end of the frame or when it is full. |
| `ClientParser.Wsi.CheckText` | libwebsockets-2.2.1/lib/client-parser.c:520-533 | The incremental UTF-8 check of a spilled chunk, which must end in state 0 at the end of a message. |
| `ClientParser.Wsi.PassUp` | libwebsockets-2.2.1/lib/client-parser.c:461-573 | A spilled chunk is checked and passed to the callback with its final-fragment mark. |
| `ClientParser.MaskPayload` | libwebsockets-2.2.1/lib/output.c:449-467 | The masking loop: the bytes of the payload are replaced in place by their exclusive or with the four mask bytes in turn, and the rest of the buffer stays. |
| `Masks.XorLaws` | libwebsockets-2.2.1/lib/output.c:459-462 | Exclusive or with a byte undoes itself, and changes nothing if and only if that byte is zero. |
| `Masks.Unmasks` | libwebsockets-2.2.1/lib/output.c:449-467 | Masking the masked payload gives it back, so the peer reads what was handed to lws_write (section 5.3 of RFC 6455). |
| `Masks.MaskKeeps` | libwebsockets-2.2.1/lib/output.c:449-467 | The buffer is as before if and only if the mask is zero on the bytes written. |
| `ClientParser.Wsi.WriteCloseFrame` | libwebsockets-2.2.1/lib/output.c:274-281 | A CLOSE goes out only in the states that may still send one, and its payload is then masked in the buffer it lies in; what the socket does not take stays as unsent bytes, a socket error marks the connection, and a denied write changes nothing. |
| `ClientParser.Wsi.ReplaceCode` | libwebsockets-2.2.1/lib/client-parser.c:366-381 | A close code that must not be sent is replaced in place by 1002; the rest of the payload stays; `CloseFrame.CloseFrameRun` says which codes these are. |
| `ClientParser.Wsi.Answer` | libwebsockets-2.2.1/lib/client-parser.c:366-405 | A CLOSE is reported and answered with the corrected payload, unless a partial send is in the way; the connection is then in returned-close, and the rx buffer holds the payload, masked if it was handed to the socket. |
| `ClientParser.Wsi.OnClose` | libwebsockets-2.2.1/lib/client-parser.c:345-407 | The CLOSE branch: in every state, with every answer of callback and socket, what is reported, written and changed; it always ends the connection. |
| `ClientParser.Wsi.OnPing` | libwebsockets-2.2.1/lib/client-parser.c:409-445 | A PING is stashed in place, unless a reason or an earlier PING is in the buffer or it is too long. |
| `ClientParser.Wsi.DoSpill` | libwebsockets-2.2.1/lib/client-parser.c:335-573 | The spill as a whole, by opcode. |
| `ClientParser.Wsi.ClientRxSm` | libwebsockets-2.2.1/lib/client-parser.c:29-586 | One byte in place: the new fields, the events and the return value are those of the step machine, from every state in which a payload byte has room; room is kept unless the byte is refused. |
| `ClientParser.Wsi.HandshakeClient` | libwebsockets-2.2.1/lib/client.c:24-62 | The byte loop: the bytes of one read do what the run of the step machine does, and stop at the first refusal, for every read whose payload bytes have room. |
| `ClientParser.Wsi.constructor` | libwebsockets-2.2.1/lib/client.c:935-955 | A freshly established connection with an rx buffer of the protocol size is between frames, with nothing received. |
| `Delivery.ReadsDoNotMatter` | libwebsockets-2.2.1/lib/client.c:35-59 | However the bytes are split into reads, the outcome is that of reading them at once. |
| `Delivery.LengthRun` | libwebsockets-2.2.1/lib/client-parser.c:148-267 | Every encoding of a length, in each of its three forms, is read as that length; a control frame is refused exactly in the two long forms. |
| `Delivery.Length64Run` | libwebsockets-2.2.1/lib/client-parser.c:203-267 | The 64-bit length bytes, from any of them on, add up to the big-endian value. |
| `Delivery.LengthTooLong` | libwebsockets-2.2.1/lib/client-parser.c:203-212 | A length of 2 to the 63 or more is refused, and nothing happens. |
| `Delivery.BufferRun` | libwebsockets-2.2.1/lib/client-parser.c:304-332 | Bytes that neither end the frame nor fill the buffer are only appended to it. |
| `Delivery.ChunkRun` | libwebsockets-2.2.1/lib/client-parser.c:304-335 | Bytes that end the frame or fill the buffer are spilled together, in order. |
| `Delivery.DataRun` | libwebsockets-2.2.1/lib/client-parser.c:304-573 | A payload of any length, over any number of spills: refused exactly if its UTF-8 check fails, else delivered in full and in order. |
| `Delivery.TextLink` | libwebsockets-2.2.1/lib/client-parser.c:61-98 | The state byte carried across frames makes the check of one frame decide whether the whole message so far is acceptable text. |
| `Delivery.FrameTheorem` | libwebsockets-2.2.1/lib/client-parser.c:51-573 | One frame other than CLOSE at a frame boundary is taken exactly if section 5.4 of RFC 6455 and, where checked, UTF-8 allow it; then exactly its payload is delivered, PING and PONG payloads included, the wait for a PONG ends exactly with one, and the boundary invariant (continuation_possible equals owed_a_fin) holds again. |
| `Delivery.DeliveryTheorem` | libwebsockets-2.2.1/lib/client-parser.c:51-573 | For every sequence of frames other than CLOSE: taken exactly if every frame is acceptable, and what the callbacks collect, cut where lws_is_final_fragment holds, is exactly the messages sent, and the PING and PONG payloads those of the frames in between. |
| `Delivery.AcceptableIsAllowed` | libwebsockets-2.2.1/lib/client-parser.c:52-139 | Without UTF-8 checking, acceptable and allowed sequences are the same. |
| `Delivery.SequenceText` | libwebsockets-2.2.1/lib/client-parser.c:520-533 | Over an allowed sequence of frames, all are acceptable exactly if all text received is, or can still become, UTF-8. |
| `CloseFrame.CloseFrameRun` | libwebsockets-2.2.1/lib/client-parser.c:345-407 | In every state of the connection, a CLOSE frame ends the read; it is reported and answered exactly if it is allowed and the text behind its code is, or can still become, UTF-8. What the answer says, by the code (its own payload for 1000 to 1003, 1007 to 1011 and from 3000 on, else 1002), when it is withheld, and the state and rx buffer left behind; one that acknowledges an own CLOSE is not reported. |
| `CloseFrame.EndsWithClose` | libwebsockets-2.2.1/lib/client-parser.c:345-407 | Any frames, then a CLOSE, then anything, in any split into reads: all messages before the CLOSE arrive, no earlier CLOSE is seen, then one report and one answer, and the rest is not read. |
| `CloseFrame.FramesTheorem` | libwebsockets-2.2.1/lib/client-parser.c:51-573 | Every sequence of frames, in any split into reads: all of it is taken if and only if there is no CLOSE and every frame is acceptable, and if the frames before the first CLOSE are acceptable, their messages arrive exactly. |
| `CloseFrame.HeadersTheorem` | libwebsockets-2.2.1/lib/client-parser.c:52-139 | With UTF-8 checking off, over every split into reads: the frame sequences taken in full are exactly those without CLOSE that section 5.4 of RFC 6455 allows, and the messages before a CLOSE arrive exactly. |
| `CloseFrame.TextTheorem` | libwebsockets-2.2.1/lib/client-parser.c:520-533 | With UTF-8 checking on, over every fragmentation, spill, split into reads and interleaved PING or PONG: a sequence that is allowed up to its first CLOSE is ended before its end exactly if there is that CLOSE or the text of a message is not well-formed UTF-8 or no longer can be; with good text the messages before the CLOSE arrive exactly. |
| `RxRefusals.CallbackStops` | libwebsockets-2.2.1/lib/client-parser.c:560-573 | Whatever is read, a callback that refuses is called exactly as the first one would be and not again, and the read ends there; where none is called it makes no difference. |
| `RxRefusals.RunQuiet` | libwebsockets-2.2.1/lib/client-parser.c:560-562 | After a CLOSE in either direction, whatever is read, no data and no PONG is reported; while an acknowledgement is awaited no CLOSE is reported or written either. |
| `RxRefusals.UnusableReads` | libwebsockets-2.2.1/lib/client-parser.c:48-49 | Nothing is read on a connection marked unusable. |
| `RxRefusals.RefusedByte` | libwebsockets-2.2.1/lib/client-parser.c:52-139 | Which first header bytes are refused, from any state, and exactly what a refused one changes. |
| `RxRefusals.ContinuesRefused` | libwebsockets-2.2.1/lib/client-parser.c:61-85 | So a CONTINUATION is taken after a refused TEXT although no message is under way. |
| `RxRefusals.RefusedText` | libwebsockets-2.2.1/lib/client-parser.c:520-533 | A chunk of text that is refused stays in the buffer, with the checker as it was unless only the end of the message was wrong. |
| `MaskedFrame.MaskedLengthRun` | libwebsockets-2.2.1/lib/client-parser.c:148-267 | With the mask bit set, the length taken is the length of the payload if and only if it is not in the short form, in which 128 is added to it. |
| `MaskedFrame.ShortMaskedFrame` | libwebsockets-2.2.1/lib/client-parser.c:165-179 | After all bytes of any masked frame in the short form the machine still waits for 128 payload bytes, and nothing has been passed on. |
| `MaskedFrame.KeyRun` | libwebsockets-2.2.1/lib/client-parser.c:269-302 | The four bytes of a mask are stored in order, and a mask other than zero is noted. |
| `MaskedFrame.MaskedBuffer` | libwebsockets-2.2.1/lib/client-parser.c:311-314 | Masked payload bytes are stored as their exclusive or with the mask bytes, from the index on that the bytes before have left. |
| `MaskedFrame.LongMaskedFrame` | libwebsockets-2.2.1/lib/client-parser.c:203-335 | A masked data frame in a long form that fits the rx buffer is spilled whole, unmasked from that index on. |
| `MaskedFrame.StoredRight` | libwebsockets-2.2.1/lib/client-parser.c:311-314 | A payload masked by section 5.3 of RFC 6455 is stored as it was, if and only if the index that is never reset meets the same mask bytes as zero would. |
| `MaskedFrame.StoredWrong` | libwebsockets-2.2.1/lib/client-parser.c:311-314 | One byte of an earlier masked frame is enough to store a payload wrong. |
| `RxRoom.RunRoom` | libwebsockets-2.2.1/lib/client-parser.c:304-335 | A read of a connection with room in its rx buffer stores every payload byte inside it, and leaves room unless it is refused. |
| `RxRoom.FullRun` | libwebsockets-2.2.1/lib/client-parser.c:304-335 | A read of a connection whose rx buffer a refusal left full stores every byte inside, if and only if it comes to no payload byte before the buffer is emptied. |
| `RxRoom.NextRoom` | libwebsockets-2.2.1/lib/handshake.c:231-261 | Only a read in a listening state changes the rx buffer. |
| `RxRoom.RoomTheorem` | libwebsockets-2.2.1/lib/client-parser.c:304-335 | Over every interleaving of events, all payload bytes are stored inside the rx buffer, if and only if no read comes to a payload byte after a refused read has left the buffer full. |
| `RxRoom.ByteAfterRefusal` | libwebsockets-2.2.1/lib/client-parser.c:564-573 | A run where that happens: a callback refuses a full buffer, the connection still listens, and one more payload byte has no room. |
| `ClientParser.Wsi.ChooseReason` | libwebsockets-2.2.1/lib/libwebsockets.c:406-418 | Without a stored reason, the one given goes into the shared buffer in place. |
| `ClientParser.Wsi.SendGoodbye` | libwebsockets-2.2.1/lib/libwebsockets.c:406-447 | The goodbye CLOSE with the stored reason, which the write masks in the shared buffer, and the wait for its acknowledgement, as the close machine has them. |
| `ClientParser.Wsi.SayGoodbye` | libwebsockets-2.2.1/lib/libwebsockets.c:406-447 | The goodbye, with the shared buffer masked, and the kill at once where it cannot be sent. |
| `ClientParser.Wsi.JustKill` | libwebsockets-2.2.1/lib/libwebsockets.c:449-606 | The end of a connection: shutdown, or the dead state with LWS_CALLBACK_CLOSED. |
| `ClientParser.Wsi.CloseFreeWsi` | libwebsockets-2.2.1/lib/libwebsockets.c:194-606 | A close call in place does what the close machine does, from every state and with every answer of extension and socket; what that is, exactly, the lemmas of `CloseCalls` say. |
| `ClientParser.Wsi.CloseReason` | libwebsockets-2.2.1/lib/libwebsockets.c:1540-1559 | The status and what fits of the data are put over whatever the shared buffer held, as `PingClose.ReasonSet` spells them out. |
| `ClientParser.Wsi.Read` | libwebsockets-2.2.1/lib/handshake.c:231-261 | Received bytes reach the machine in three states only, a refusal closes the connection, and there is room again after every read that is not refused. |
| `ClientParser.Wsi.FlushUnsent` | libwebsockets-2.2.1/lib/service.c:72-86 | Unsent bytes of an earlier write: what is left of them, and whether the connection closes now. |
| `ClientParser.Wsi.SendPong` | libwebsockets-2.2.1/lib/service.c:118-140 | The pending PONG carries the stashed payload, which the write masks in the shared buffer, and the flag is cleared unless the write fails. |
| `ClientParser.Wsi.HandlePollOut` | libwebsockets-2.2.1/lib/service.c:56-150 | A writable socket: unsent bytes first, then a pending PONG, then the user, with the flags and the shared buffer after it. |
| `ClientParser.Wsi.ServiceWritable` | libwebsockets-2.2.1/lib/service.c:942-953 | A writable event, and the close call where the event handler asks for one. |
| `ClientParser.Wsi.WriteData` | libwebsockets-2.2.1/lib/output.c:274-281 | A write of user data: only in the established state and without unsent bytes, with what it leaves of them. |
| `ClientParser.Wsi.Happen` | libwebsockets-2.2.1/lib/libwebsockets.c:194-606 | Each event in place does what the close machine does. |
| `ClientParser.Wsi.HappenAll` | libwebsockets-2.2.1/lib/libwebsockets.c:194-606 | Whole runs of events in place do what the close machine does, for every run without a payload byte after a refusal that left the buffer full. |
| `Closing.RunReceives` | libwebsockets-2.2.1/lib/client-parser.c:345-407 | Receiving any bytes writes at most one CLOSE, none after the connection has left the established state, and never reports the end. |
| `Closing.CloseProgress` | libwebsockets-2.2.1/lib/libwebsockets.c:296-513 | A close call lowers the rank of the connection (established or returned-close, awaiting-ack or flushing, shutdown, dead) if and only if it is not put off by unsent bytes in the flushing state or by a veto. |
| `Closing.NextFollows` | libwebsockets-2.2.1/lib/libwebsockets.c:194-606 | Each single event keeps the order of states, at most one CLOSE, and LWS_CALLBACK_CLOSED exactly on reaching the dead state. |
| `Closing.ClosesOnce` | libwebsockets-2.2.1/lib/libwebsockets.c:301-606 | Over every interleaving of received bytes, writable events, data writes, failures, close reasons and close calls: at most one CLOSE frame is written (section 5.5.1 of RFC 6455), and LWS_CALLBACK_CLOSED is issued exactly once if the run reaches the dead state and never otherwise. |
| `Closing.CloseReachesEnd` | libwebsockets-2.2.1/lib/libwebsockets.c:296-513 | Any close calls that are not put off, as many as the rank (at most three), reach the dead state from every state. |
| `CloseCalls.GoodbyeExactly` | libwebsockets-2.2.1/lib/libwebsockets.c:406-447 | A close call writes a CLOSE if and only if the connection is established and usable with nothing unsent, there is a reason, and neither context, extension nor lws_write forbids it; the CLOSE says the stored reason, or the status given, big-endian. |
| `CloseCalls.DiesExactly` | libwebsockets-2.2.1/lib/libwebsockets.c:296-300 | A close call ends the connection at once, if and only if it is unusable, shut down before, the context goes down, or the goodbye meets a socket error. |
| `CloseCalls.CloseFlushes` | libwebsockets-2.2.1/lib/libwebsockets.c:318-324 | A close call on a usable connection with unsent bytes enters the flushing state and changes nothing else. |
| `CloseCalls.AsksToFlush` | libwebsockets-2.2.1/lib/libwebsockets.c:311-314 | A close call while bytes are flushed is put off and asks for a writable socket. |
| `CloseCalls.FlushWaits` | libwebsockets-2.2.1/lib/service.c:76-86 | Over every run without a failure, a socket error or the end of the context: the connection flushes exactly while bytes are unsent, as many as the socket has not taken, and is then shut down and never sends again. |
| `CloseCalls.CloseWaits` | libwebsockets-2.2.1/lib/libwebsockets.c:318-324 | The same from the close call on, from the established and the returned-close state: no unsent byte is given up. |
| `CloseCalls.ViolentEnd` | libwebsockets-2.2.1/lib/libwebsockets.c:296-300 | A failure, the end of the context, and a socket error while flushing end the connection at once. |
| `CloseCalls.DataIsFlushed` | libwebsockets-2.2.1/lib/output.c:274-281 | What the socket leaves of a data write is what a close call then waits for. |
| `CloseCalls.DataExactly` | libwebsockets-2.2.1/lib/output.c:274-281 | A data write has no effect where lws_write sends nothing; after a socket error the next close call is the end. |
| `CloseCalls.UnsentFirst` | libwebsockets-2.2.1/lib/service.c:76-84 | A writable socket takes unsent bytes first; a socket error then is the end, and a denied write puts the connection into the flushing state. |
| `CloseCalls.AsksUser` | libwebsockets-2.2.1/lib/service.c:942-953 | With nothing unsent and no PONG due the user is asked, and one who refuses closes the connection. |
| `CloseCalls.ServesNoMore` | libwebsockets-2.2.1/lib/service.c:942-953 | A connection that flushes with nothing left is shut down; one that is shut down or awaits an acknowledgement is not served. |
| `CloseCalls.Deaf` | libwebsockets-2.2.1/lib/handshake.c:231-261 | After the answer to a CLOSE, and while flushing, nothing is read. |
| `CloseCalls.AckEnds` | libwebsockets-2.2.1/lib/client-parser.c:355-362 | The CLOSE that acknowledges an own one shuts the connection down, whatever it says. |
| `CloseCalls.UnusableEnds` | libwebsockets-2.2.1/lib/client-parser.c:48-49 | The first read on a connection marked unusable is its end. |
| `CloseCalls.DeadOwesNothing` | libwebsockets-2.2.1/lib/libwebsockets.c:449-606 | A connection at its end is marked unusable and owes no PONG. |
| `PingClose.RunHolds` | libwebsockets-2.2.1/lib/client-parser.c:409-445 | Receiving any bytes leaves a stored close reason as it is, and stashes no PING over it. |
| `PingClose.NextHolds` | libwebsockets-2.2.1/lib/libwebsockets.c:406-426 | With no PING payload waiting in the shared buffer, any event other than another close reason leaves the reason there until a CLOSE is written, and that CLOSE carries it or echoes the CLOSE just received. |
| `PingClose.ReasonSurvives` | libwebsockets-2.2.1/lib/libwebsockets.c:406-426 | The same over every run of such events: the reason stays while no CLOSE is written, and every CLOSE carries it or echoes the CLOSE just received. |
| `PingClose.ReasonSet` | libwebsockets-2.2.1/lib/libwebsockets.c:1540-1559 | lws_close_reason, whatever the buffer held, leaves it holding two bytes that spell the status, big-endian, and then the data or its first 123 bytes; a PING payload waits in it afterwards if and only if one did before. |
| `PingClose.ReasonSaid` | libwebsockets-2.2.1/lib/libwebsockets.c:406-426 | The CLOSE of the next close call says that status and that data. |
| `PingClose.ReasonAfterPong` | libwebsockets-2.2.1/lib/service.c:118-140 | For every PING that waits when the reason is set and whose PONG goes out before the close call: the CLOSE says the reason, if and only if the mask of the PONG is zero on the bytes that both have in the buffer; if the socket did not take all of the PONG there is no CLOSE. |
| `PingClose.ReasonLost` | libwebsockets-2.2.1/lib/output.c:459-462 | A run where it does not: a PING of two bytes, status 1000, the PONG under the mask 1, 2, 3, 4, and the CLOSE says 2, 234. |
| `PingClose.StashTheorem` | libwebsockets-2.2.1/lib/client-parser.c:409-445 | Over every accepted sequence of frames the stashed payload is that of the first PING, and nothing is stashed over a close reason or a PING that still waits. |
| `PingClose.PongAnswers` | libwebsockets-2.2.1/lib/service.c:118-140 | After reading any accepted frames, the first writable event without unsent bytes hands the PONG for the first PING among them to the socket, whatever the socket does with it, and writes none if lws_write denies it; with unsent bytes the answer stays pending. |
| `PingClose.NextAnswers` | libwebsockets-2.2.1/lib/service.c:118-140 | Each event keeps what waits in the buffer equal to what is owed, and any PONG it writes carries that, unless it is a close reason over a waiting PING. |
| `PingClose.PongsTheorem` | libwebsockets-2.2.1/lib/service.c:118-140 | Over every run of events without such a close reason, every PONG carries the payload of the first PING since the PONG before it. |
| `PingClose.ReasonOverPing` | libwebsockets-2.2.1/lib/libwebsockets.c:1540-1559 | A close reason set while a PING waits leaves the PONG right, if and only if it does not change the bytes it is put over. |
| `TimeoutList.PerThread.Unlink` | libwebsockets-2.2.1/lib/libwebsockets.c:92-111 | The link updates for a connection with given neighbours: the neighbours point at each other, every other link stays. |
| `TimeoutList.PerThread.Detach` | libwebsockets-2.2.1/lib/libwebsockets.c:92-111 | The same for the k-th connection of a chain. |
| `TimeoutList.Relinked` | libwebsockets-2.2.1/lib/libwebsockets.c:92-111 | Once the neighbours of a removed link point at each other, the rest is a chain again. |
| `TimeoutList.PerThread.Remove` | libwebsockets-2.2.1/lib/libwebsockets.c:92-111 | The connection leaves the list wherever on it it was, or nothing happens; next and back links agree again and the order of the others stays. |
| `TimeoutList.PerThread.Insert` | libwebsockets-2.2.1/lib/libwebsockets.c:123-133 | The connection becomes the first of the list, with links agreeing. |
| `TimeoutList.PerThread.SetTimeout` | libwebsockets-2.2.1/lib/libwebsockets.c:113-143 | Arming puts the connection first unless it is on the list already, disarming removes it; reason and limit are set, and no other connection changes them. |
| `TimeoutList.PerThread.Serve` | libwebsockets-2.2.1/lib/libwebsockets.c:92-143 | Any mix of set and remove calls over any number of connections keeps the list well formed; a connection has a back link exactly if the last call about it armed a timeout, and reason and limit are as last set. |
| `TimeoutList.AfterMembers` | libwebsockets-2.2.1/lib/libwebsockets.c:92-143 | One call keeps each connection at most once on the list, and puts on or takes off only its own. |
| `TimeoutList.OnListWhenWaiting` | libwebsockets-2.2.1/lib/libwebsockets.c:92-143 | After any calls, a connection is on the list, once, if and only if the last call about it armed a timeout. |
| `TimeoutList.PerThread.CloseAll` | libwebsockets-2.2.1/lib/libwebsockets.c:226-241 | Closing connections one after the other takes exactly those off the list and keeps the order of the others. |
| `TimeoutList.PerThread.Visit` | libwebsockets-2.2.1/lib/service.c:347-401 | One connection of the sweep leaves the list, with its children, exactly if its time is up; the saved successor is still on the list if and only if it is not one of them. |
| `TimeoutList.PerThread.Sweep` | libwebsockets-2.2.1/lib/service.c:750-763 | The sweep that closes connections while it walks the list: whether it stays on the list, and what is then left of the list, in order, as the walk over values has it. |
| `TimeoutList.SweepTheorem` | libwebsockets-2.2.1/lib/service.c:750-763 | A sweep that stays on the list closes every connection whose time is up; in any case only those and their children are closed. |
| `TimeoutList.ChildlessSweep` | libwebsockets-2.2.1/lib/service.c:750-763 | Without children on the list the sweep stays on it and closes exactly the connections whose time is up. |
| `TimeoutList.ArmedExactly` | libwebsockets-2.2.1/lib/libwebsockets.c:113-143 | A timeout that waits runs out as its last setting says. |
| `TimeoutList.PerThread.ServeThenSweep` | libwebsockets-2.2.1/lib/service.c:347-401 | From an empty list, after any calls and then a sweep, a connection is on the list if and only if the last call about it armed a timeout that is still to come. |
| `Minilex.Lexer.FindEdge` | libwebsockets-2.2.1/lib/minilex.c:103-109 | The first edge with the character, or the number of edges if there is none. |
| `Minilex.Lexer.AddState` | libwebsockets-2.2.1/lib/minilex.c:114-120 | A new state behind a new edge, refused exactly where an array is full. |
| `Minilex.Lexer.Follow` | libwebsockets-2.2.1/lib/minilex.c:102-122 | One character of a string leads to the state of the longer prefix, which is added if it is missing. |
| `Minilex.Lexer.InsertWord` | libwebsockets-2.2.1/lib/minilex.c:91-123 | A string is followed from the root; the trie stays one of prefixes, and an overflow means that the strings do not fit. |
| `Minilex.Lexer.EndWord` | libwebsockets-2.2.1/lib/minilex.c:125-127 | The end of a string is a state of its own, marked with its index. |
| `Minilex.Lexer.AddWord` | libwebsockets-2.2.1/lib/minilex.c:89-128 | One string is added, or skipped if it is empty; an overflow means that the strings do not fit. |
| `Minilex.Lexer.Build` | libwebsockets-2.2.1/lib/minilex.c:89-128 | The trie of all strings is built exactly if their prefixes and branches fit the arrays. |
| `Minilex.Lexer.Layout` | libwebsockets-2.2.1/lib/minilex.c:130-160 | The two sizing passes give every state the position the specification has. |
| `Minilex.Lexer.EmitEdge` | libwebsockets-2.2.1/lib/minilex.c:173-227 | The bytes of an edge, refused exactly where its jump is over 64K. |
| `Minilex.Lexer.Emit` | libwebsockets-2.2.1/lib/minilex.c:162-231 | The emission pass writes every edge at its computed position, or stops exactly if some jump is over 64K. |
| `Minilex.Lexer.Compile` | libwebsockets-2.2.1/lib/minilex.c:89-267 | For every prefix-free set of strings over bytes 9 to 127: a table is made if and only if the set fits the arrays; then every string of the set decodes to its index with its last character and not before, and of all other strings those that go on from a member decode as it, and those that end inside the trie, or leave it where only one character can follow, are refused. |
| `Minilex.LextableDecode` | libwebsockets-2.2.1/lib/minilex.c:52-75 | The decoding loop returns what the decoder specification says, for any table and position. |
| `Minilex.TryOne` | libwebsockets-2.2.1/lib/minilex.c:240-261 | The terminal that a string decodes to, or -1, and whether the decoder refuses a character before that. |
| `Minilex.TryAll` | libwebsockets-2.2.1/lib/minilex.c:239-267 | The closing self-check returns 0 if and only if every string decodes to its index; otherwise 3 or 4 for the first that does not, exactly by whether the decoder refuses it. |
| `Trie.NotTerminal` | libwebsockets-2.2.1/lib/minilex.c:89-128 | A state that a string of a prefix-free set passes through is no terminal. |
| `Trie.EndIsFresh` | libwebsockets-2.2.1/lib/minilex.c:125-127 | The state where a new string of the set ends has no edges yet. |
| `Trie.GrowTerminals` | libwebsockets-2.2.1/lib/minilex.c:114-120 | A new state leaves every string inserted so far at its terminal. |
| `Trie.MarkTerminals` | libwebsockets-2.2.1/lib/minilex.c:125-127 | Marking the end of a string adds its terminal and leaves the others. |
| `Trie.GrowOrdered` | libwebsockets-2.2.1/lib/minilex.c:114-120 | As a string is followed to its end in one go, the first edge of a state leads to the next state. |
| `Trie.NoEmptyState` | libwebsockets-2.2.1/lib/minilex.c:89-128 | Every state of a finished trie with more than the root has an edge. |
| `TrieLimits.FinishedFits` | libwebsockets-2.2.1/lib/minilex.c:36-47 | A finished trie within the arrays means that the set fits them. |
| `TrieLimits.TooManyStates` | libwebsockets-2.2.1/lib/minilex.c:36-47 | Running out of states means that the set has more prefixes than there are states. |
| `TrieLimits.TooManyEdges` | libwebsockets-2.2.1/lib/minilex.c:36-47 | Running out of edges means that the strings branch more widely than an array allows. |
| `TrieLimits.NoFarJump` | libwebsockets-2.2.1/lib/minilex.c:207-214 | A trie within the arrays never needs a jump of over 64K. |
| `LexTable.ChainedIsNext` | libwebsockets-2.2.1/lib/minilex.c:149-151 | The distance test of the layout holds exactly for the last edge of a state that leads to the next state. |
| `LexTable.ChainedEdge` | libwebsockets-2.2.1/lib/minilex.c:54-62 | In any table, an edge without a jump is taken if and only if its character matches and no fail marker follows. |
| `LexTable.DecodeEdge` | libwebsockets-2.2.1/lib/minilex.c:52-75 | From any edge of a state, the decoder finds the first later edge with the character and lands at the start of its target. |
| `LexTable.LookupFrom` | libwebsockets-2.2.1/lib/minilex.c:249-261 | A string that begins with a member is decoded, from the state of any of its prefixes, to the terminal of that member. |
| `LexTable.MembersDecode` | libwebsockets-2.2.1/lib/minilex.c:52-75 | Every string of the set decodes, from position 0, to its index, with its last character and not before. |
| `LexTable.DecodeMiss` | libwebsockets-2.2.1/lib/minilex.c:54-74 | A character that no edge of a state has is refused where the last edge needs no jump; otherwise the decoder reads on at the fail marker with the same character. |
| `LexStrings.EdgesGoOn` | libwebsockets-2.2.1/lib/minilex.c:89-128 | A state that is no terminal has exactly one edge for each character that can follow its prefix in the set. |
| `LexStrings.LastEdge` | libwebsockets-2.2.1/lib/minilex.c:114-120 | The last edge of such a state leads to the next state if and only if it is the only one. |
| `LexStrings.EveryString` | libwebsockets-2.2.1/lib/minilex.c:52-75 | For every string, by the longest prefix it shares with the set: it decodes as that member if the prefix is one, and is refused if it ends there or only one character can follow. |
| `LexStrings.ReadsOn` | libwebsockets-2.2.1/lib/minilex.c:63-72 | In the remaining case, where several characters can follow, the decoder reads on at the fail marker of that state. |
| `LexStrings.ReadsInside` | libwebsockets-2.2.1/lib/minilex.c:63-72 | What becomes of a string that leaves the set where several characters can follow, by the first of them: accepted whatever follows if several characters can follow that too; read on in the next state but one if it ends a string; in the state after those if one character follows twice; accepted if one and then two characters can follow, or one and then the end of one of the first eight strings. |
| `LexStrings.StandsIn` | libwebsockets-2.2.1/lib/minilex.c:52-75 | A lookup that reads on in another state decodes as the string that leads to that state and goes on the same way. |
| `LexStrings.TakenAs` | libwebsockets-2.2.1/lib/minilex.c:52-75 | In a state that ends a string, any further character decodes as that string. |
| `LexTable.NonMemberAccepted` | libwebsockets-2.2.1/lib/minilex.c:63-72 | So a string outside the set can be taken for a member: a concrete set and table. |
| `PmDeflate.TxKeeps` | libwebsockets-2.2.1/lib/extension-permessage-deflate.c:373-428 | A call that is not the last keeps every byte, sent or held, if and only if it does not drop held bytes for an empty compressor output. |
| `PmDeflate.TxTrims` | libwebsockets-2.2.1/lib/extension-permessage-deflate.c:373-428 | The last call sends all but the last 4 bytes, if and only if bytes were held or its own output has four. |
| `PmDeflate.TxConserves` | libwebsockets-2.2.1/lib/extension-permessage-deflate.c:326-432 | Between the calls of a message, bytes sent and bytes held are all that was produced, in order. |
| `PmDeflate.TxMessage` | libwebsockets-2.2.1/lib/extension-permessage-deflate.c:326-432 | Over a whole message the bytes sent are the compressor output without exactly its last 4 bytes, and nothing stays held. |
| `PmDeflate.RxKeeps` | libwebsockets-2.2.1/lib/extension-permessage-deflate.c:205-324 | One call delivers or holds every inflated byte, the chunk is below the buffer size, and a byte is held exactly if the buffer was filled. |
| `PmDeflate.RxConserves` | libwebsockets-2.2.1/lib/extension-permessage-deflate.c:205-324 | Over every run of calls, each with its own output size, the chunks and the held byte are all that was inflated, in order, and every chunk is below that size. |
| `PmDeflate.RxFeeds` | libwebsockets-2.2.1/lib/extension-permessage-deflate.c:205-277 | What inflate takes and what is left of its input are, in order, the pending input, the payload and, where the message ends, the four bytes the sender removed, if and only if no payload comes while input is pending. |
| `PmDeflate.RxPutBack` | libwebsockets-2.2.1/lib/extension-permessage-deflate.c:228-263 | Where nothing is pending and no byte held at the end of a message, the four bytes were put back. |
| `PmDeflate.RxFeedsAll` | libwebsockets-2.2.1/lib/extension-permessage-deflate.c:205-277 | Over every run that drains pending input first, inflate has taken all payloads in order, each completed message with its four bytes, but what is left. |
| `PmDeflate.CapFits` | libwebsockets-2.2.1/lib/extension-permessage-deflate.c:50-63 | The limit set from the protocol rx buffer keeps every option value within it, if and only if that buffer has the 128 bytes that construction demands. |
| `PmDeflate.ChunkFits` | libwebsockets-2.2.1/lib/extension-permessage-deflate.c:50-63 | Whatever options are set between the calls, every chunk of every run is strictly shorter than the protocol rx buffer. |
| `PmDeflate.LaterFits` | libwebsockets-2.2.1/lib/extension-permessage-deflate.c:191-211 | The buffers are allocated once, the sizes read at every call: a later size stays within the buffer if and only if it is no larger than the first, or so small that the spare bytes do. |
| `PmDeflate.LogUnique` | libwebsockets-2.2.1/lib/extension-permessage-deflate.c:56-58 | The exponent found by the limiting loop is the only one, so the limit is a function of the rx buffer size. |
| `PmDeflate.Options.constructor` | libwebsockets-2.2.1/lib/extension-permessage-deflate.c:128-158 | The defaults, limited by the rx buffer. |
| `PmDeflate.Options.Construct` | libwebsockets-2.2.1/lib/extension-permessage-deflate.c:115-158 | Construction is refused if and only if the rx buffer is below 128 bytes; else the inflate buffer stays within it. |
| `PmDeflate.Options.RestrictArgs` | libwebsockets-2.2.1/lib/extension-permessage-deflate.c:44-64 | The loop limits the buffer exponent by the base-2 logarithm of the rx buffer and changes nothing else. |
| `PmDeflate.Options.SetOption` | libwebsockets-2.2.1/lib/extension-permessage-deflate.c:95-105 | Setting an option or the defaults changes exactly that, and then limits the exponent. |
| `PmDeflate.Options.Negotiate` | libwebsockets-2.2.1/lib/extension-permessage-deflate.c:95-158 | Any options in any order give the arguments that `PmDeflate.LastWins` spells out, and keep the inflate buffer within the rx buffer. |
| `PmDeflate.LastWins` | libwebsockets-2.2.1/lib/extension-permessage-deflate.c:95-158 | After any options, each argument is what the last option about it asks for: 1 without a value, the low byte of its value, or the default; the inflate exponent is limited besides. |
| `PmDeflate.Priv.PrependHeld` | libwebsockets-2.2.1/lib/extension-permessage-deflate.c:373-394 | The held bytes go in front of new output in place; of an empty output only the first held byte is sent on. |
| `PmDeflate.Priv.Hold` | libwebsockets-2.2.1/lib/extension-permessage-deflate.c:422-427 | The last bytes of the output are copied to the held bytes, in order. |
| `PmDeflate.Priv.Defer` | libwebsockets-2.2.1/lib/extension-permessage-deflate.c:417-428 | Of all that is to go out the last bytes are held back, if there are as many. |
| `PmDeflate.Priv.PayloadTx` | libwebsockets-2.2.1/lib/extension-permessage-deflate.c:363-432 | A TX call in place, with a size within the allocated buffer, sends and holds what the specification says, and asks for another call exactly if the output was filled. |
| `PmDeflate.Priv.Prepare` | libwebsockets-2.2.1/lib/extension-permessage-deflate.c:205-235 | The held byte is put first into the output, and the input is the one left over or the one given. |
| `PmDeflate.Priv.Inflate` | libwebsockets-2.2.1/lib/extension-permessage-deflate.c:205-277 | The buffer holds the held byte and what was inflated, also across the added trailer; a zlib error is reported. |
| `PmDeflate.Priv.PayloadRx` | libwebsockets-2.2.1/lib/extension-permessage-deflate.c:205-324 | An RX call in place, with a size within the allocated buffer: -1 exactly for a zlib error, 1 exactly if a byte is held, and the chunk of the specification. |
| `ExtOptions.NarrowMap` | libwebsockets-2.2.1/lib/extension.c:56-79 | The loop over the match map leaves exactly the options that still match, or the one that is complete. |
| `ExtOptions.ParseOptions` | libwebsockets-2.2.1/lib/extension.c:20-157 | The loop gives the callbacks and the return value of the parser specification on every input; `OptionRoundTrip` and `OptionFaults` say what these are. |
| `OptionRoundTrip.NarrowStep` | libwebsockets-2.2.1/lib/extension.c:56-79 | With a prefix-free table, one more character of a name leaves exactly the options that begin with what was read, and ends exactly at the whole name. |
| `OptionRoundTrip.NameRun` | libwebsockets-2.2.1/lib/extension.c:50-81 | A name is recognised as its option, at the end of the input or before what follows. |
| `OptionRoundTrip.DigitsRun` | libwebsockets-2.2.1/lib/extension.c:106-126 | The digits of a value are collected from the first to the last. |
| `OptionRoundTrip.RoundTrip` | libwebsockets-2.2.1/lib/extension.c:20-157 | For every prefix-free table and every list of options with fitting values, printing and parsing gives exactly that list of callbacks with those texts, and returns 0. |
| `OptionRoundTrip.TextsAreDigits` | libwebsockets-2.2.1/lib/extension.c:114-135 | The value texts are the digits alone, if and only if the list does not end with a quoted value, whose closing quote is passed on. |
| `OptionFaults.FrontRun` | libwebsockets-2.2.1/lib/extension.c:34-154 | Any options followed by more are parsed with their callbacks, and the parser goes on with what follows. |
| `OptionFaults.NarrowMiss` | libwebsockets-2.2.1/lib/extension.c:56-79 | A character with which no name goes on empties the match map; any other leaves the names that go on with it. |
| `OptionFaults.UnknownRun` | libwebsockets-2.2.1/lib/extension.c:50-81 | A name that is no option's and begins none is refused. |
| `OptionFaults.Refused` | libwebsockets-2.2.1/lib/extension.c:72-150 | For every prefix-free table, any options and then a fault, whatever follows: an unknown name, a character that cannot stand behind a name, a value where none is allowed, no value where one is needed, no digit, an unclosed quote, or something behind a value. The callbacks are those of the options before it, and of a value that is complete, and -1 is returned. |
| `OptionFaults.NameAtEnd` | libwebsockets-2.2.1/lib/extension.c:61-68 | A name that ends the input is set without a value, also if it needs one. |
| `OptionFaults.OneMoreAtEnd` | libwebsockets-2.2.1/lib/extension.c:82-94 | One character between a name and the end: with a space or comma nothing is set, otherwise the option is, or is refused if it needs a value. |
| `OptionFaults.OneMoreInValue` | libwebsockets-2.2.1/lib/extension.c:114-131 | A character that is no digit, between a value and the end, becomes part of the value's text. |
| `OptionFaults.CommaAfterName` | libwebsockets-2.2.1/lib/extension.c:85-88 | The input ends at a comma, and an option without a value before it is not set. |
| `OptionFaults.CommaForName` | libwebsockets-2.2.1/lib/extension.c:40-43 | The same for a comma in the place of a name. |
| `OptionFaults.CommaAfterValue` | libwebsockets-2.2.1/lib/extension.c:139-149 | An option with a quoted value before a comma is set. |
| `ZipScan.Zip.ReadEnd` | libwebsockets-2.2.1/lib/fops-zip.c:187-212 | The end record: its three errors, or the entry count and the start of the directory. |
| `ZipScan.Zip.ReadCentral` | libwebsockets-2.2.1/lib/fops-zip.c:215-239 | A central directory header is read field by field, little-endian. |
| `ZipScan.Zip.CompareName` | libwebsockets-2.2.1/lib/fops-zip.c:241-257 | A name of the right length is compared in full. |
| `ZipScan.Zip.EnterContent` | libwebsockets-2.2.1/lib/fops-zip.c:259-288 | The lengths of the local header tell where the content starts. |
| `ZipScan.Zip.OneEntry` | libwebsockets-2.2.1/lib/fops-zip.c:214-298 | An entry is passed over, found or an error, exactly as its bytes say; passing over leads to the next entry, and a damaged one is named. |
| `ZipScan.Zip.ScanDirectory` | libwebsockets-2.2.1/lib/fops-zip.c:214-300 | The loop over the directory returns the code of the first entry with the name, or of the damage before it. |
| `ZipScan.Zip.Scan` | libwebsockets-2.2.1/lib/fops-zip.c:177-301 | On every archive the scan finds the first entry with the name and stands at its content, and reports not-found exactly if there is none; a directory that is cut short or damaged before the name is reported by its damage; on any other file each error code of the end record is given exactly for its reason. |
| `ZipWrite.EndReads` | libwebsockets-2.2.1/lib/fops-zip.c:187-212 | An end record is accepted if and only if it has its signature, one disk and all entries on it. |
| `ZipWrite.WrittenIsArchive` | libwebsockets-2.2.1/lib/fops-zip.c:177-301 | Every archive written from entries is one that the scan reads as those entries. |
| `ZipContents.DataFound` | libwebsockets-2.2.1/lib/fops-zip.c:259-288 | In an archive written with local headers and contents, the position computed for each entry is where its data lies. |
| `ZipContents.RecordCut` | libwebsockets-2.2.1/lib/fops-zip.c:259-288 | A file that ends inside a local header, or before the data, is refused with the code for each; one that ends inside the data is not. |
| `ZipContents.Fetch` | libwebsockets-2.2.1/lib/fops-zip.c:177-301 | Writing files and opening a name: the data at the position found is that of the first file with the name, and not-found exactly if there is none; a name of 63 bytes or more is refused exactly if some file has one as long. |
| `GzipView.Trailer` | libwebsockets-2.2.1/lib/fops-zip.c:428-442 | The trailer holds crc and size, least significant byte first, as the scanner reads them (section 2.3.1 of RFC 1952). |
| `GzipView.GzipFile` | libwebsockets-2.2.1/lib/fops-zip.c:106 | The gzip view of a file is the ten header bytes of section 2.3 of RFC 1952 written out, the content, and crc and size least significant byte first; in an archive cut short it ends there. |
| `GzipView.Fd.constructor` | libwebsockets-2.2.1/lib/fops-zip.c:409-449 | An opened file stands at 0 and declares header, content and trailer. |
| `GzipView.Fd.FromHead` | libwebsockets-2.2.1/lib/fops-zip.c:592-604 | The part of a read that lies in the header. |
| `GzipView.Fd.FromContent` | libwebsockets-2.2.1/lib/fops-zip.c:606-627 | The part that lies in the content, up to a short read of the archive. |
| `GzipView.Fd.FromTrailer` | libwebsockets-2.2.1/lib/fops-zip.c:629-643 | The part that lies in the trailer. |
| `GzipView.Fd.Read` | libwebsockets-2.2.1/lib/fops-zip.c:587-646 | A read gives the bytes of the gzip file at the position, moves it by as many, and is short only at the end or after a short read of the archive. |
| `GzipView.Fd.ReadAll` | libwebsockets-2.2.1/lib/fops-zip.c:587-646 | For every sequence of read lengths the bytes, joined, are a prefix of header, content and trailer, and never exceed the declared length. |
| `Base64.EncodeString` | libwebsockets-2.2.1/lib/base64-decode.c:50-90 | The in-place encoder writes the encoding and a terminator and returns its length, or -1, exactly by whether the buffer has two bytes more than the encoding; nothing beyond the buffer changes. |
| `Base64.EncodedText` | libwebsockets-2.2.1/lib/base64-decode.c:50-90 | The encoding has four characters for every three bytes begun, and no terminator among them. |
| `Base64.Alphabet` | libwebsockets-2.2.1/lib/base64-decode.c:44-47 | The encode and decode tables are the alphabet of section 4 of RFC 4648. |
| `Base64.PassesOver` | libwebsockets-2.2.1/lib/base64-decode.c:108-115 | Characters that are not in the alphabet are passed over. |
| `Base64.SkipTo` | libwebsockets-2.2.1/lib/base64-decode.c:108-115 | The inner loop of the decoder stops behind the next character of the alphabet or at the end. |
| `Base64.TakeGroup` | libwebsockets-2.2.1/lib/base64-decode.c:105-122 | A group of up to four characters of the alphabet, with other characters skipped. |
| `Base64.DecodeString` | libwebsockets-2.2.1/lib/base64-decode.c:97-153 | The in-place decoder, whatever its slots hold at the start, writes what the decoder specification says with a terminator, or returns -1, on every input. |
| `Base64.FullGroup` | libwebsockets-2.2.1/lib/base64-decode.c:105-143 | The four characters of three bytes are read back as their slots, whatever the slots held before. |
| `Base64.PaddedGroup` | libwebsockets-2.2.1/lib/base64-decode.c:105-143 | The same for both kinds of padded group at the end. |
| `Base64.BitsBack` | libwebsockets-2.2.1/lib/base64-decode.c:137-142 | The slots of one to three bytes give those bytes back. |
| `Base64.GroupIsNumber` | libwebsockets-2.2.1/lib/base64-decode.c:73-78 | The slots of a group are the base-64 digits of its bytes read as one number, zero bits added (section 4 of RFC 4648). |
| `Base64.RoundTrip` | libwebsockets-2.2.1/lib/base64-decode.c:45-153 | Decoding the encoding (section 4 of RFC 4648) of any bytes returns them and their number, if and only if the output buffer has two bytes more; else -1. |
| `UrlCode.UrlEncode` | libwebsockets-2.2.1/lib/libwebsockets.c:1935-1963 | The in-place encoder writes the encoding of the characters taken and a terminator, and nothing behind it. |
| `UrlCode.StaysWithin` | libwebsockets-2.2.1/lib/libwebsockets.c:1935-1963 | Output and terminator stay within the given length, for any string, if and only if that length is at least 1. |
| `UrlCode.TakesAll` | libwebsockets-2.2.1/lib/libwebsockets.c:1941 | The whole string is encoded, if and only if more than 3 bytes are left before its last character. |
| `UrlCode.TakesAtLeast` | libwebsockets-2.2.1/lib/libwebsockets.c:1941 | Each beginning of a string is encoded, if and only if more than 3 bytes are left before its last character. |
| `UrlCode.EncodesAs` | libwebsockets-2.2.1/lib/libwebsockets.c:1935-1963 | Letters and digits stand for themselves, a space becomes a plus sign, and every other character an escape with two upper-case hexadecimal digits. |
| `UrlCode.UrlDecode` | libwebsockets-2.2.1/lib/libwebsockets.c:1965-2012 | The in-place decoder writes what the decoder specification says with a terminator, or returns -1 for a bad hex digit, on every input. |
| `UrlCode.HexValue` | libwebsockets-2.2.1/lib/parsers.c:487-499 | The value of a hexadecimal digit, in either letter case; every other character has none. |
| `UrlCode.DecodeTokens` | libwebsockets-2.2.1/lib/libwebsockets.c:1965-2012 | Characters, plus signs and escapes decode to what they mean as far as there is room, and the decoder goes on behind them. |
| `UrlCode.Decodes` | libwebsockets-2.2.1/lib/libwebsockets.c:1965-2012 | Every text of characters, plus signs and escapes, with digits in either case, decodes to what it means, cut to the length allowed. |
| `UrlCode.BadEscape` | libwebsockets-2.2.1/lib/libwebsockets.c:1965-2012 | Where there is room, an escape that is not two hexadecimal digits ends the decoding with -1, but one cut short by the end of the text is passed over. |
| `UrlCode.RoundTrip` | libwebsockets-2.2.1/lib/libwebsockets.c:1935-2012 | Decoding gives back the characters that were encoded, cut to the length allowed: the whole string if and only if all of it was encoded and the length allows it. |
| `LejpStep.Step` | libwebsockets-2.2.1/lib/lejp.c:187-709 | One turn, from every state and with every character: the depth stays below its limit, every level under the top waits for a name, value or array, pops never run out of levels, string and number text stays within the buffer, a character looked at again meets a lower state rank, and three of the rejection reasons never occur. |
| `LejpStep.NumberFits` | libwebsockets-2.2.1/lib/lejp.c:434-503 | Inside a number the buffer has room for another character and the terminator. |
| `LejpRun.Run` | libwebsockets-2.2.1/lib/lejp.c:187-709 | A whole parse ends, by bytes left and state rank; LEJP_CONTINUE leaves the depth below its limit and a context that parsing can go on with. |
| `LejpRun.ThreeLooks` | libwebsockets-2.2.1/lib/lejp.c:699-701 | No character is looked at more than three times. |
| `LejpRun.ThreeTurns` | libwebsockets-2.2.1/lib/lejp.c:699-701 | So a parse takes at most three turns for each character. |
| `LejpRun.Pieces` | libwebsockets-2.2.1/lib/lejp.c:167-175 | Parsing the input in pieces is parsing it at once, for every split: the same reports, the same context, the same outcome. |
| `LejpRun.NeverAFloat` | libwebsockets-2.2.1/lib/lejp.c:445-485 | Over every run, a number with a point is never reported, although lejp.h lists LEJPCB_VAL_NUM_FLOAT. |
| `LejpRun.WholeNumber` | libwebsockets-2.2.1/lib/lejp.c:434-493 | Digits are reported in full if and only if there are at most ten; of more, the first ten are reported and the parse is rejected. |
| `LejpRun.NoNegative` | libwebsockets-2.2.1/lib/lejp.c:363-431 | A value that begins with a minus sign is always rejected. |
| `LejpRun.OnlyContinueIsNegative` | libwebsockets-2.2.1/lib/lejp.c:179 | As the reason goes through an unsigned char, only LEJP_CONTINUE is returned as a negative number, although lejp.h promises a negative error code. |
| `LejpRun.Mistakable` | libwebsockets-2.2.1/lib/lejp.c:179 | The numbers of unused bytes for which a completed parse cannot be told from a rejected one, exactly. |
| `LejpString.ChunksConserve` | libwebsockets-2.2.1/lib/lejp.c:657-669 | The chunks reported and the text left in the buffer are all that was received, in order, each chunk full. |
| `LejpString.StringDelivered` | libwebsockets-2.2.1/lib/lejp.c:239-283 | A string value of any length with any escapes is reported as start, full chunks and end, and the texts joined are the unescaped string. |
| `LejpString.HexExactly` | libwebsockets-2.2.1/lib/lejp.c:285-346 | The bytes that a u escape puts out are the UTF-8 of its number, if and only if no letter stands behind a digit other than 0. |
| `LejpString.HexRun` | libwebsockets-2.2.1/lib/lejp.c:285-346 | The four digits of a u escape put out these bytes, also across full chunks. |
| `LejpString.BadEscape` | libwebsockets-2.2.1/lib/lejp.c:267-346 | An escape that is none, or has a character that is no hexadecimal digit, is rejected. |
| `LejpTree.ValueRun` | libwebsockets-2.2.1/lib/lejp.c:363-650 | Every value, nested to any depth, is parsed and reported exactly as it is, if and only if the parser takes it at this depth; otherwise the parse is rejected. |
| `LejpTree.GapRun` | libwebsockets-2.2.1/lib/lejp.c:192-206 | Any spaces, tabs, line feeds and carriage returns, and comments up to a line feed, are skipped wherever no string, number or word is under way. |
| `LejpTree.NotSkipped` | libwebsockets-2.2.1/lib/lejp.c:192-206 | No other character is. |
| `LejpTree.TreeTheorem` | libwebsockets-2.2.1/lib/lejp.c:187-709 | For every JSON tree whose root is an object, of strings with any escapes, whole numbers and words, with any white space and comments around every token and anything behind it: the parse completes behind the tree, with exactly its reports in order, if and only if nothing in it is empty, no number has more than ten digits and the depth is below the limit; otherwise it is rejected. |
| `LejpRejects.EveryCharacter` | libwebsockets-2.2.1/lib/lejp.c:187-709 | In every state, with any levels and anything parsed before, which characters are refused, and with which of the reasons of lejp.h, exactly. |
| `LejpRejects.CallbackDecides` | libwebsockets-2.2.1/lib/lejp.c:187-709 | In every state, the callback ends the parse with LEJP_REJECT_CALLBACK if and only if it objects to a report; the end of a string only by a negative answer, the end of an array and the completion never. |
| `LejpRejects.IndexDecides` | libwebsockets-2.2.1/lib/lejp.c:396-412 | An array for which the index stack has no room is rejected. |
| `LejpRejects.ExponentNumber` | libwebsockets-2.2.1/lib/lejp.c:434-503 | A number with an exponent, of ten digits at most, is reported as an integer with its whole text; a sign needs no digit behind it. |
| `LejpRejects.BraceInArray` | libwebsockets-2.2.1/lib/lejp.c:541-650 | A closing brace after an element ends the array's level; a bracket may still follow, and a comma asks for another value. |
| `Lejp.Parser.constructor` | libwebsockets-2.2.1/lib/lejp.c:26-46 | A fresh context is idle, with no level below. |
| `Lejp.Parser.AddLevel` | libwebsockets-2.2.1/lib/lejp.c:674-689 | Pushing a level, or the overflow rejection at the depth limit. |
| `Lejp.Parser.EmitChar` | libwebsockets-2.2.1/lib/lejp.c:657-672 | A string character goes into the buffer in place, and a full buffer is reported and emptied. |
| `Lejp.Parser.AppendChar` | libwebsockets-2.2.1/lib/lejp.c:691-697 | A number character goes into the buffer in place. |
| `Lejp.Parser.Structure` | libwebsockets-2.2.1/lib/lejp.c:210-236 | The states around names, with their rejections. |
| `Lejp.Parser.InsideString` | libwebsockets-2.2.1/lib/lejp.c:239-265 | The string state: end, escape, control characters, other characters. |
| `Lejp.Parser.Escape` | libwebsockets-2.2.1/lib/lejp.c:267-283 | The short escapes. |
| `Lejp.Parser.LookUp` | libwebsockets-2.2.1/lib/lejp.c:273-280 | The search of the escape tables finds what an escape character stands for, or that there is none. |
| `Lejp.Parser.HexEscape` | libwebsockets-2.2.1/lib/lejp.c:285-346 | The four digits of a u escape and the bytes emitted on the way. |
| `Lejp.Parser.OpenLevel` | libwebsockets-2.2.1/lib/lejp.c:371-414 | Strings, objects and arrays that are values open a level. |
| `Lejp.Parser.BeginValue` | libwebsockets-2.2.1/lib/lejp.c:363-431 | The first character of a value. |
| `Lejp.Parser.Number` | libwebsockets-2.2.1/lib/lejp.c:434-493 | A character of a number. |
| `Lejp.Parser.EndNumber` | libwebsockets-2.2.1/lib/lejp.c:479-493 | The end of a number is reported and the character looked at again. |
| `Lejp.Parser.Exponent` | libwebsockets-2.2.1/lib/lejp.c:496-503 | The character after an exponent sign. |
| `Lejp.Parser.TokenChar` | libwebsockets-2.2.1/lib/lejp.c:505-539 | A character of true, false or null. |
| `Lejp.Parser.AfterValue` | libwebsockets-2.2.1/lib/lejp.c:541-630 | Comma, bracket or brace after a value, with the pops and the end of the parse. |
| `Lejp.Parser.AfterArray` | libwebsockets-2.2.1/lib/lejp.c:633-650 | Comma or bracket after an array. |
| `Lejp.Parser.Turn` | libwebsockets-2.2.1/lib/lejp.c:187-209 | White space and comments are skipped in place in the states that do not keep them; `LejpTree.GapRun` and `LejpTree.NotSkipped` say which characters these are. |
| `Lejp.Parser.Parse` | libwebsockets-2.2.1/lib/lejp.c:176-709 | The loop in place gives the reports, the context and the return value of the run, within the bounds of stack and buffer. |

## Left out

- Sockets, poll, SSL, libuv, libev, platform files and the daemon: input and output without logic of their own.
- The HTTP client and server, HTTP/2, HPACK, CGI, access log and status dumps: other protocols, or string assembly.
- The server's receive machine, cached receive data and the draining of extensions: code that is not part of this model.
- Delivery of masked frames over several spills: the step machine and the methods have them; the theorems about their content are for frames that fit the rx buffer.
- Extensions while receiving and sending: permessage-deflate is modelled by itself, not inside the receive machine.
- Subprotocol matching and the rest of the client handshake: a scan of two lists, with easy properties only.
- Child connections in the close machine (the sweep of the timeout list has them), the flush loops of extensions at close, and the periodic check PING: they would add events without changing the close machine.
- Memory that runs out while the rest of a partial write is stored, and the mask fields that sending shares with the receiving of masked frames: the first is one more way for a write to fail, the second would need frames that a server must not send.
- zlib: inflate and deflate are arbitrary producers of bytes within the space given.
- That the four bytes are put back no more than once for a message: a call that drains a held byte at the end of a message puts them back again, as the model has it.
- The named options and the confirmation callback of permessage-deflate: table lookups.
- Failing seeks and reads of a zip archive's file, and the stored and inflating read branches: only the gzip view is modelled.
- Paths, wildcards, the index stack and the start report of lejp: they do not touch the states, the depth or the characters; whether the index stack is full is a parameter.
- Balance of brackets in lejp: `LejpRejects.BraceInArray` shows why there is none to claim.
- ClientParser.Wsi.constructor: models the fields that receiving and closing use, because the rest of the handshake is left out.
- PmDeflate.Options.constructor: the part of construction after the size test; `PmDeflate.Options.Construct` has the test.
- ClientParser.Wsi.HandlePollOut: the periodic check PING and the pending CLOSE are not modelled, because the first only adds an event and the flag of the second is set by the server's receive machine alone.
- ClientParser.Wsi.RxPayload: asks for room for the byte, because C leaves a store outside the buffer undefined; `RxRoom.RoomTheorem` says exactly when there is room.
- ClientParser.Wsi.ClientRxSm: asks for room for a payload byte, for the same reason.
- ClientParser.Wsi.HandshakeClient: asks for room for every payload byte of the read, for the same reason.
- ClientParser.Wsi.Read: asks for room for every payload byte of the read, for the same reason.
- ClientParser.Wsi.Happen: asks for room for every payload byte of a read, for the same reason.
- ClientParser.Wsi.HappenAll: leaves out exactly the runs that `RxRoom.RoomTheorem` shows to store outside the buffer.
- PmDeflate.Priv.PayloadTx: asks for a size within the allocated buffer, because C leaves a store outside it undefined; `PmDeflate.LaterFits` says exactly when that is so.
- PmDeflate.Priv.PayloadRx: asks for a size within the allocated buffer, for the same reason.
- TimeoutList.PerThread.Visit: of a close only the removal from the list is modelled, of the connection and of its children, because the close itself is in `Closing`.
- TimeoutList.PerThread.Sweep: ends where the saved successor is gone, because C leaves reading a freed connection undefined.
- LexStrings.ReadsInside: leaves open a first way of one character and then three or more, or the end of a later string, and the fail marker's own character, because there the jump bytes of the table decide.
