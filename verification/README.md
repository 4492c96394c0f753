# A verified model of the b-CAP stack

This project models the hard core of a robot controller's remote interface in Dafny and proves what its
documentation and callers rely on. These parts are covered:

| files | what they model |
|---|---|
| `Wire`, `Variant`, `Encoder`, `Decoder`, `RoundTrip`, `Bounds` | the b-CAP wire codec: the size computation, the bounded writers that share an offset, and the readers with their 32-bit sums and allocation sizes, all over recursive VARIANT trees |
| `Samples` | written frames byte by byte, and the reader's tests on the head in plain numbers |
| `Crc`, `Transport`, `Damage` | the CRC of the serial line and the damage it notices, sending on TCP, UDP and COM, and the TCP receive loop that resynchronises by peeking and skipping |
| `ObjectStack`, `FunctionIds`, `Objects` | the server's intrusive object stack, its release at the end of a connection, and the client's record of the same handles |
| `Relations` | the parent's child list and delete list, kept in two reused pointer fields |
| `Client`, `Retry` | serials, the client's retry loop, and the request, retry and replay protocol over a lossy and duplicating channel |
| `RacText`, `RacNumber`, `RacValue`, `RacRoundTrip`, `RacConvert` | the RAC text form of VARIANT values and its in-place splitter |
| `VariantHeap` | deep copy and release of VARIANT trees on an explicit heap |
| `Options` | the option-string parser, which deletes outer brackets from its buffer while scanning |
| `Pendant`, `Robotalk` | the teach pendant's connection states and its ROBOTalk frames |
| `XmlText` | XML escaping, and unescaping in place |

Each part has a specification (functions and predicates), imperative methods in the source's own form that are
proved equal to the specification, and theorems about the specification. `dafny verify dfyconfig.toml` checks
everything.

## What the proofs found

Where a promise does not hold of the code as it stands, the model keeps the code and the theorem states the exact
condition or gives a reachable counterexample:

- A byte array whose offset and count add up to 2^32 or more passes the reader's 32-bit test and is read behind the
  frame; an array whose byte size passes 2^32, or a string too long for its 16-bit size, is stored behind its
  allocation. `Bounds.FaultExactly` says exactly when, for frames of every length;
  `Bounds.WrappedCountReadsOutside` and `Bounds.WrappedSizeStoresOutside` are small frames that do it. Within 8 bytes of
  2^32 a field of fixed size does it too (`Bounds.VastFieldReadsOutside`), and the place of a length field, which is
  skipped untested, wraps to the start of the frame. The writer's tests wrap likewise, once a
  packet passes 2^32 bytes (`Transport.Send`, `Transport.VastArraySpills`, `Transport.VastNumbersSpill`).
- The serial line's CRC notices any damage within 16 consecutive bits of the contents, or within its own field. Damage
  that reaches from the one into the other can pass: `Damage.BurstPasses` has the exact condition, and every frame has
  such a neighbour 13 bits away (`Damage.StruckPasses`).
- A retried call is executed for every transmission that arrives and is not refused, until an arrival of its first
  transmission is executed and recorded; from then on, while the record is not dropped, its own reply is replayed
  (`Retry.ExecutionCount`, for every run and every handling). So it runs exactly once if its first transmission
  arrives, nothing of it is refused, and each of its replies is recorded and kept (`Retry.RecordedOnce`); it runs twice
  if the first transmission is lost (`Retry.LostFirstRunsTwice`) or its reply cannot be sent
  (`Retry.UnrecordedRunsTwice`).
- An accepted final reply is the call's own if and only if its call began less than 65535 serials before
  (`Retry.AcceptedExactly`), and a replayed one likewise (`Retry.ReplayedExactly`); `Retry.StaleReplay` is a run that
  accepts a wrong one. Each stands for an execution or, if it says so, a refusal (`Retry.RefusedRunsNever`).
- `calc_time_diff` is a difference only while the millisecond clock has not wrapped (`Wire.TimeDiffExact`). After a wrap
  a test for lateness says yes of everything but almost a whole turn (`Wire.LateExactly`): within ten seconds of a
  packet the pendant is declared lost if and only if the clock has wrapped since (`Pendant.ErrorDisconnectExactly`,
  `Pendant.WrapDisconnectsAtOnce`), and a live UDP client is dropped (`Relations.ExpiredExactly`,
  `Relations.WrapExpires`).
- RAC text loses empty values, VT_BOOL values other than 0 and 0xFFFF, empty arrays, and strings whose brackets or
  commas escape their element: `RacRoundTrip.ReadsBackExactly` has the exact condition, `RacRoundTrip.CommaSplits` an
  example.
- `VariantCopy` silently replaces an array element of an unknown type by an empty value while it reports success
  (`VariantHeap.CopiedSame`, `VariantHeap.ElementEmptied`).
- `GetOptionValue` never compares a segment without `=` with the key (`Options.LookupFindsFirst`).
- Escaped XML text comes back with its line ends normalised, hence unchanged exactly if it has no CR
  (`XmlText.EscapeRoundTrip`). An `&` that starts no known entity leaves a stale byte of the original text in the
  result if something before it was shortened (`XmlText.StaleByte`), and an `&#` at the very end loses its `&`
  (`XmlText.CutOffLost`); `XmlText.UnescapedAsMeant` has the exact condition. A hexadecimal reference of more than eight
  digits stands for the number its last eight write (`XmlText.HexRead`).

## Assumptions

- The host is little-endian and allocation succeeds. Floating-point values are opaque bit patterns.
- VT_DATE is an opaque pattern of eight bytes, as on a build where DATE is a double. The conversion of `time_t` dates on
  Linux is not part of this model.
- The host has 64-bit pointers: a BSTR takes 8 bytes of an array, a VARIANT 16. `malloc(0)` returns a pointer.
- RAC texts are shorter than 2^32 bytes.
- Strings hold 16-bit code units other than NUL. Those a frame announces may be of any length; elsewhere they have at
  most the 16382 units for which `SysAllocStringLen` computes its size right. A NULL BSTR counts as the empty string.
  Conversion between wide and multibyte text is the identity, as it is for ASCII.
- A read of bytes that were peeked before is complete. A serial line or socket is a sequence of bytes with a schedule
  that says how many are ready at each receive call.
- `%ld` and `%lu` print the value passed to them; `wcstol` and its kin follow the C standard with base 0 and 64-bit `long`.
- Overlapping `memcpy` moves the bytes, and trimming a blank string stops at its start.
- Threads: each mutex-protected procedure is one atomic step; the callback of a request is part of that step.

## Model

| member | source | states |
|---|---|---|
| Wire.LoadStored | bcap_core/src/bcap_common.c:219-402 | an integer stored in its field width and loaded again is itself |
| Wire.StoreLoaded | bcap_core/src/bcap_common.c:528-719 | any bytes are what storing their loaded value writes |
| Wire.TimeDiffExact | bcap_core/include/bcap_core/dn_thread.h:199-199 | the macro gives the true difference of two times less than 2^32 ms apart if and only if the clock did not wrap between them |
| Wire.LateExactly | bcap_core/include/bcap_core/dn_thread.h:199-199 | the test for more than a limit is right if and only if the clock did not wrap, or the time is more than the limit and less than a whole turn less the limit |
| Encoder.CalcSizeVariant | bcap_core/src/bcap_common.c:70-167 | the computed size is the length of the payload the writer is to produce, modulo 2^32, for every tree |
| Encoder.CalcSizePacket | bcap_core/src/bcap_common.c:847-862 | the computed packet size is the true one modulo 2^32 |
| Encoder.SizesAreWritten | bcap_core/src/bcap_common.c:70-402 | the switches of the size computation and of the writer, kept apart for elements and scalars, give every type the same number of bytes |
| Encoder.ScalarBytes | bcap_core/src/bcap_common.c:312-402 | every scalar takes 1, 2, 4, 8 or no bytes by the number of its type |
| Encoder.VectorBytes | bcap_core/src/bcap_common.c:229-311 | every array takes its count times 1, 2, 4, 8 or no bytes by the number of its element type |
| Encoder.WriteNums | bcap_core/src/bcap_common.c:219-402 | fixed-size values: success exactly if they fit below the bound, then exactly these bytes; a store behind the bound exactly if the first that does not fit passes its 32-bit test; nothing behind the bound changes otherwise |
| Encoder.WriteBStr | bcap_core/src/bcap_common.c:219-402 | a string's byte count and units, with the same exact outcomes and frame |
| Encoder.WriteVariant | bcap_core/src/bcap_common.c:219-402 | one payload: succeeds exactly if no array in it is NULL and it fits, then advances the offset by exactly its length; it stores behind the bound exactly if a field or byte array that does not fit passes its 32-bit test |
| Encoder.WriteElements | bcap_core/src/bcap_common.c:415-466 | a run of elements, each top-level length field equal to the bytes that follow it, with the same exact outcomes, down to a length field whose place wraps to the start of the buffer |
| Encoder.WritePacket | bcap_core/src/bcap_common.c:476-516 | on a buffer of the computed size every check passes, the terminator lands on the one unwritten byte, and the header length is the total; two zero bytes remain before it when two more were asked for; a shorter buffer fails, or is left exactly where a 32-bit test lets through what does not fit |
| Decoder.ReadVariant | bcap_core/src/bcap_common.c:528-719 | reading one value, every test a 32-bit sum and every store against the memory really allocated, gives the value, offset or error of the specification, and names a read behind the frame or a store behind an allocation where there is one |
| Decoder.ReadsAsWritten | bcap_core/src/bcap_common.c:528-719 | the reader's switches take for every type the bytes the writer's give it, and the arrays created have elements of that size |
| Decoder.DecElements | bcap_core/src/bcap_common.c:732-765 | on every byte string the mutually recursive reader terminates and, where it succeeds, ends below the terminator with no more elements than there is memory for, having consumed at least 6 bytes an element, 10 a top-level argument, unless the frame is so long that a skipped length field wraps |
| Decoder.ReadElements | bcap_core/src/bcap_common.c:732-765 | the reading loop gives the specified elements, offset, error or fault |
| Decoder.ReadPacket | bcap_core/src/bcap_common.c:776-839 | header checks, argument count against the caller's room, then the arguments, for every byte string |
| RoundTrip.FrameDecodes | bcap_core/src/bcap_common.c:476-839 | every packet of nested arguments, written into a buffer of its size and read back, is itself up to array lower bounds, whatever padding stands before the terminator |
| RoundTrip.LengthFields | bcap_core/src/bcap_common.c:415-466 | in every frame written, the four bytes at the start of each argument load to the distance from behind them to the next argument or the end |
| Samples.HeadBytes | bcap_core/src/bcap_common.c:476-516 | the fixed part of every frame at its literal offsets: marker, length, serial, reserve, the id in two's complement, the count and the terminator |
| Samples.ElementBytes | bcap_core/src/bcap_common.c:415-466 | every element is its type in numbers, its count and its payload |
| Samples.RequestFrame | bcap_core/src/bcap_common.c:219-516 | a request with a negative id, an integer and a string, byte for byte |
| Samples.NestedElement | bcap_core/src/bcap_common.c:219-466 | an array of an integer array and a string array, byte for byte |
| Samples.HeadTests | bcap_core/src/bcap_common.c:776-839 | which head tests refuse a frame, in bytes, with the code of each and their order |
| Samples.LowerBoundOne | bcap_core/src/bcap_common.c:528-719 | every array read has lower bound 1 |
| RoundTrip.AcceptedPacket | bcap_core/src/bcap_common.c:528-839 | whatever is accepted, from frames of any length, is well typed and complete, with arrays and strings that fit their allocations, leaves the terminator unread, and in a frame of at most 2^32 - 4 bytes has at most (length - 16) / 10 arguments |
| RoundTrip.ReadWriteRead | bcap_core/src/bcap_common.c:476-839 | whatever is accepted reads back as itself from a frame made of it if that is shorter than 2^32 bytes; so it is, and no longer than the frame it came from, if that has at most 2^32 - 4 bytes |
| Bounds.FaultExactly | bcap_core/src/bcap_common.c:528-839 | for every frame of every length: a read goes behind it if and only if a byte array or a field that ends at 2^32 or later is reached, and a store goes behind its allocation if and only if an array cut by 2^32 or a string cut by 2^16 is reached with bytes for more than fit |
| Bounds.ReadsStay | bcap_core/src/bcap_common.c:540-546 | a frame of at most 2^32 - 8 bytes in which no six bytes read as such a byte array's header is never read outside |
| Bounds.StoresStay | bcap_core/src/dn_common.c:76-204 | a frame in which no four bytes read as more than the longest string's length never makes a store outside an allocation |
| Bounds.WrappedCountReadsOutside | bcap_core/src/bcap_common.c:540-546 | a frame of 26 bytes that is read outside |
| Bounds.WrappedSizeStoresOutside | bcap_core/src/dn_common.c:138-204 | a frame of 34 bytes whose second integer is stored behind the memory allocated |
| Bounds.VastFieldReadsOutside | bcap_core/src/bcap_common.c:615-622 | a frame of 2^32 - 1 bytes without a byte array that is read outside |
| Crc.CalcCrc | bcap_core/src/bcap_common.c:870-890 | the bitwise loop computes the register specified by absorbing byte by byte |
| Crc.FeedIsShifts | bcap_core/src/bcap_common.c:870-890 | feeding bits equals shifting the register xored with them, while they fit |
| Crc.FeedLinear | bcap_core/src/bcap_common.c:870-890 | the register is linear over xor of start values and inputs |
| Crc.ShiftInvertible | bcap_core/src/bcap_common.c:870-890 | no shift step maps a nonzero register to zero |
| Crc.CrcDetectsBursts | bcap_core/src/bcap_common.c:870-890 | any two buffers of equal length that differ only within 16 consecutive bits have different CRCs |
| Crc.CrcComplements | bcap_core/src/bcap_common.c:870-890 | the register of at least two bytes is that of an empty register fed their bits with the first sixteen complemented |
| Crc.CrcCancels | bcap_core/src/bcap_common.c:870-890 | any bytes followed by their checksum, high byte first, bring the register to zero |
| Crc.ChecksumIsNum | bcap_core/src/bcap_common.c:870-890 | the checksum of all bytes is the one computed in 16-bit numbers with start value 0xFFFF and generator 0x1021 |
| Crc.StepsAreCrc | bcap_core/src/bcap_common.c:870-890 | taking in half a byte at a time, four rounds in one, gives the same register for all bytes |
| Crc.CheckValue | bcap_core/src/bcap_common.c:870-890 | the digits one to nine give the customary check value 0x29B1 |
| Transport.Send | bcap_core/src/bcap_common.c:899-974 | the outcome for every packet, however large: success exactly if no array is NULL and the frame fits the link, and then exactly the frame, with its CRC on a serial line; a store outside the buffer exactly where the length wrapped and a field or byte array that does not fit passes its 32-bit test |
| Transport.VastArraySpills | bcap_core/src/bcap_common.c:232-240 | a packet whose length wraps to 39 and whose byte array is copied all the same |
| Transport.VastNumbersSpill | bcap_core/src/bcap_common.c:301-308 | two arrays of eight-byte integers whose length wraps to 2^32 - 4, and one of them is stored behind the buffer |
| Transport.SentIsAccepted | bcap_core/src/bcap_common.c:899-1142 | the bytes sent on any link are read back as the packet |
| Transport.SentMatches | bcap_core/src/bcap_common.c:957-961 | the checksum sent is the one the receiver computes |
| Samples.EmptyRequestFrame | bcap_core/src/bcap_common.c:899-974 | an empty request on a serial line, byte for byte, with its checksum low byte first |
| Transport.DamagedField | bcap_core/src/bcap_common.c:1122-1128 | a frame whose checksum field alone was damaged is refused |
| Damage.DamagePasses | bcap_core/src/bcap_common.c:1122-1128 | a damaged frame passes the receiver's comparison if and only if the damage to its contents, fed to an empty register, is the damage to its checksum field |
| Damage.BurstPasses | bcap_core/src/bcap_common.c:1122-1128 | damage within 16 consecutive bits from the length field to the checksum passes if and only if it reaches from the contents into the field and its two parts match |
| Damage.StruckPasses | bcap_core/src/bcap_common.c:1122-1128 | every frame that passes still does with three of its bits in the last content byte and the field flipped, within 13 bits |
| Transport.Synchronise | bcap_core/src/bcap_common.c:1026-1077 | peeking and dropping never skips a position where a header stands |
| Transport.Receive | bcap_core/src/bcap_common.c:1026-1120 | on a TCP connection, under any chunking, the first header with a length of at least 16 is picked, exactly the bytes before it and the frame are consumed, and the result is the parse of that frame; while enough receive calls each find at least five bytes or what is left, none is returned only if no header is in the stream, and a frame is lost only if the stream ends inside it |
| Transport.NextFrame | bcap_core/src/bcap_common.c:1026-1120 | bytes without a header followed by a sent frame give back the packet that was sent |
| ObjectStack.Stack.Push | bcap_core/src/bCAPServer/bcap_server.c:186-207 | the new object heads the sequence, unless the quota is reached, when nothing changes |
| ObjectStack.Stack.Pop | bcap_core/src/bCAPServer/bcap_server.c:217-255 | the object at the index leaves the sequence and is returned; none for an index out of range |
| ObjectStack.Stack.Search | bcap_core/src/bCAPServer/bcap_server.c:266-281 | the first index that holds the pair of id and handle, or -1 when there is none |
| FunctionIds.TablesAgree | bcap_core/include/bcap_core/bCAPServer/bcap_mapid.h:48-188 | the server's relation table, its quota gate and the client's tables fit together for every id |
| FunctionIds.ByNumber | bcap_core/include/bcap_core/bCAPServer/bcap_mapid.h:48-188 | the relation table in function numbers |
| Objects.Serve | bcap_core/src/bCAPServer/bcap_server.c:771-793 | the quota test, the call's answer and the update of the stack give the reply code and the stack of the specification |
| Objects.RefusedByNumber | bcap_core/src/bCAPServer/bcap_server.c:525-670 | a full stack, an id outside 1 to 137 and a function without callback are each answered with their own negative code |
| Objects.OnlyDoneChanges | bcap_core/src/bCAPServer/bcap_server.c:525-793 | the reply is 0 exactly when a callback ran and returned 0, and nothing else changes the stack |
| Objects.ServedByNumber | bcap_core/src/bCAPServer/bcap_server.c:771-793 | what a success does to the stack: which entry is pushed, or which first entry is taken out |
| Objects.ReleaseAll | bcap_core/src/bCAPServer/bcap_server.c:947-963 | the clean-up empties the stack and calls each implemented release once, from the top down |
| Objects.CallsInOrder | bcap_core/src/bCAPServer/bcap_server.c:947-963 | the clean-up's calls keep the order of the stack and leave out exactly the objects whose release has no callback |
| Objects.Conservation | bcap_core/src/bCAPServer/bcap_server.c:652-793 | over every run what was pushed is what was popped plus what is on the stack, and the stack never exceeds its quota |
| Objects.TraceIsStack | bcap_core/src/bCAPServer/bcap_server.c:771-793 | the stack is always in reverse order of creation, each entry created by a request with a callback that returned 0 |
| Objects.Service.Record | bcap_service/src/bcap_service.cpp:962-975 | the client's record after a call |
| Objects.RecordedByNumber | bcap_service/src/bcap_service.cpp:962-975 | a new handle goes behind the record, a released one is taken out at its first place, handle 0 and failed calls leave it alone |
| Objects.HandlesAgree | bcap_service/src/bcap_service.cpp:962-975 | over every run the client's record and the server's stack hold the same handles, but for the service itself |
| Objects.DisconnectLeaves | bcap_service/src/bcap_service.cpp:128-165 | after Disconnect exactly the failed releases are left on the server, so nothing is left if and only if all succeeded |
| Relations.Conn.AddChild | bcap_core/src/bCAPServer/bcap_server.c:315-487 | the new node heads the child list, the other lists and times are unchanged |
| Relations.Conn.DestroySelf | bcap_core/src/bCAPServer/bcap_server.c:315-487 | a child moves from the child list to the head of the delete list, every list stays linked, acyclic and disjoint |
| Relations.Conn.DeleteChildren | bcap_core/src/bCAPServer/bcap_server.c:315-487 | the delete list is freed node by node, each once, and the counter is the number of children left |
| Relations.Conn.SearchNode | bcap_core/src/bCAPServer/bcap_server.c:291-305 | the child with the address if and only if there is one |
| Relations.Conn.CheckLifelimit | bcap_core/src/bCAPServer/bcap_server.c:495-516 | the expired children, and no others, are unlinked and appended to the ledger of freed nodes |
| Relations.KeptOrGone | bcap_core/src/bCAPServer/bcap_server.c:495-516 | every child is either kept or freed, and once |
| Relations.ExpiredExactly | bcap_core/src/bCAPServer/bcap_server.c:504-508 | the test means not heard of for longer than the limit if and only if the clock did not wrap since, or long enough ago |
| Relations.WrapExpires | bcap_core/src/bCAPServer/bcap_server.c:504-508 | a client heard of 32 ms ago counts as expired after a wrap |
| Relations.RoomByNumber | bcap_core/src/bCAPServer/bcap_server.c:590-606 | below twenty clients nobody is freed; from twenty on every expired client is and every other is kept |
| Relations.Conn.Admit | bcap_core/src/bCAPServer/bcap_server.c:593-616 | a known sender keeps its node and nothing is freed; a new one gets a node if there is room after expiry, and what expiry frees is appended to the ledger; addresses stay distinct and at most 20 |
| Relations.Conn.Forget | bcap_core/src/bCAPServer/bcap_server.c:794-802 | a client that stopped its service is unlinked and freed at once |
| Relations.Conn.DestroyAll | bcap_core/src/bCAPServer/bcap_server.c:315-487 | destroying the root unlinks every child and appends each once to the ledger of freed nodes, the last child first |
| Client.NextSerial | bcap_core/src/bCAPClient/bcap_client.c:146-148 | the serials stamped cycle through 1 to 65535 and are never 0 |
| Client.SerialsDistinct | bcap_core/src/bCAPClient/bcap_client.c:146-148 | any 65535 consecutive stamps have distinct serials |
| Client.UnansweredExactly | bcap_core/src/bCAPClient/bcap_client.c:151-163 | an attempt stays unanswered exactly while everything heard under its serial has code 0x900 |
| Client.Connection.SetRetry | bcap_core/src/bCAPClient/bcap_client.c:536-575 | the retry count is clamped, and 1 on TCP |
| Client.Connection.SendReceive | bcap_core/src/bCAPClient/bcap_client.c:125-181 | the code returned is that of the first final reply to the serial just sent, at most retry attempts, each with a fresh serial and all with the first serial in the reserve field, 0 on TCP |
| Retry.AcceptedExactly | bcap_core/src/bCAPClient/bcap_client.c:144-163 | over every run of lost, duplicated and delayed messages, with no condition on it: a final reply the client accepts is for that very call if and only if its call began less than 65535 serials before, and in any case the server took in a transmission of the reply's call and executed it, or refused it if the reply is a refusal |
| Retry.ReplayedExactly | bcap_core/src/bCAPServer/bcap_server.c:616-637 | over every run: a transmission is answered with the recorded reply of its own call if and only if that call's first transmission was executed and recorded before and the record not dropped since, and with that of another call only if that is a full round of serials old |
| Retry.FirstRound | bcap_core/src/bCAPServer/bcap_server.c:616-637 | until 65535 serials are used every accepted and every replayed reply is the call's own |
| Retry.RefusedRunsNever | bcap_core/src/bCAPServer/bcap_server.c:643-670 | a run in which an accepted reply is a refusal and the call was never executed |
| Retry.ExecutionCount | bcap_core/src/bCAPServer/bcap_server.c:616-637 | over every run, for every call and every handling: it is executed once for each delivery that was neither refused nor answered with another call's reply, up to and including the first recorded one of its first transmission since the record was last dropped |
| Retry.RecordedOnce | bcap_core/src/bCAPServer/bcap_server.c:616-637 | a call whose own deliveries were executed and recorded or answered with its own reply is executed exactly once if its first transmission arrived, else once for each that arrived, whatever happened to other calls |
| Retry.EveryRun | bcap_core/src/bCAPServer/bcap_server.c:804-814 | what every step of every run keeps: whose the waiting messages, the record and the replies are, and the order of deliveries |
| Retry.CallBegins | bcap_core/src/bCAPClient/bcap_client.c:141-145 | a call may begin with one to seven transmissions while no other is active, its first serial in the reserve field |
| Retry.OneTransmission | bcap_core/src/bCAPClient/bcap_client.c:144-171 | a transmission may fail, which ends the call, or goes out with the next serial; without an answer in time the call ends exactly when it was the last one allowed |
| Retry.RecordDropped | bcap_core/src/bCAPServer/bcap_server.c:794-802 | once the record is dropped no request is answered from it |
| Retry.ServedAnew | bcap_core/src/bCAPServer/bcap_server.c:639-814 | a request not answered before is executed or refused: how many replies go out, which of them is final and what is recorded, for each outcome |
| Retry.ServedAgain | bcap_core/src/bCAPServer/bcap_server.c:616-637 | a remembered reply goes out again under the new serial, and nothing is executed or recorded |
| Retry.ReadEnds | bcap_core/src/bCAPClient/bcap_client.c:151-163 | only a final reply under the client's own serial ends a call; any other is dropped and changes nothing else |
| Retry.LostFirstRunsTwice | bcap_core/src/bCAPServer/bcap_server.c:616-637 | a run in which one call is executed twice |
| Retry.UnrecordedRunsTwice | bcap_core/src/bCAPServer/bcap_server.c:804-814 | a run in which the first transmission arrives, its reply cannot be sent, and the call is executed twice |
| Retry.StaleReplay | bcap_core/src/bCAPServer/bcap_server.c:616-637 | a run in which a call accepts the answer to the one 65535 serials before |
| RacText.SplitRacStr | bcap_core/src/RACString/rac_string.c:44-86 | the in-place splitter leaves exactly the pieces, each ended by a NUL, or fails exactly on unmatched brackets |
| RacText.SplitInvertsJoin | bcap_core/src/RACString/rac_string.c:43-86 | splitting inverts joining if and only if every piece has matched brackets and no comma outside them |
| RacText.JoinOfPieces | bcap_core/src/RACString/rac_string.c:43-86 | joining inverts splitting on every text |
| RacText.SplitInCharacters | bcap_core/src/RACString/rac_string.c:43-86 | commas split, except within brackets, and an unmatched bracket fails, in any text |
| RacNumber.ReadSigned | bcap_core/src/dn_common.c:571-724 | a printed number followed by anything but a digit or letter reads back as itself |
| RacNumber.NumberRead | bcap_core/src/dn_common.c:571-724 | blanks, a sign and any run of hexadecimal digits behind 0x or 0X, of octal ones behind 0, or of decimal ones give the digits' value in base 16, 8 or 10 and leave the rest |
| RacNumber.WrittenRead | bcap_core/src/dn_common.c:571-724 | every number written in one of the three bases, in small letters or capitals and with either sign, is read back |
| RacNumber.NothingRead | bcap_core/src/dn_common.c:571-724 | where no digit follows the blanks and the sign, nothing is consumed and the value is 0 |
| RacNumber.SignedLeaf | bcap_core/src/dn_common.c:571-724 | what each signed type makes of every number, in integers: the range refused, the bits kept, and VT_I2 tested after the cut to 32 bits |
| RacNumber.UnsignedLeaf | bcap_core/src/dn_common.c:571-724 | the unsigned types likewise: a minus sign refused for the two widest only, VT_UI1 tested against 65535 and then cut |
| RacNumber.LeafOfText | bcap_core/src/dn_common.c:571-724 | a text is a value if a point or nothing follows its numeral, and is refused if anything else does |
| RacNumber.EmptyTypes | bcap_core/src/dn_common.c:571-598 | the empty text is never a value, and the two empty types take any other |
| RacNumber.PrintedByNumber | bcap_core/src/dn_common.c:506-564 | every bit pattern's text by the number of its type: the unsigned value, or two's complement in a signed type, and none for other types |
| RacNumber.LeafRoundTrip | bcap_core/src/dn_common.c:506-724 | a printed integer reads back as itself through the source's narrowing tests if and only if it is canonical |
| RacValue.ItemParses | bcap_core/src/RACString/rac_string.c:124-171 | an array element is read back by stripping exactly what the printer put around it |
| RacValue.SpacedItem | bcap_core/src/RACString/rac_string.c:124-171 | an element may have spaces outside its brackets and around its type; its text is everything between the comma and the last bracket |
| RacValue.NotOpened | bcap_core/src/RACString/rac_string.c:124-137 | an element without '(' or with something other than spaces before it is refused |
| RacValue.NotClosed | bcap_core/src/RACString/rac_string.c:139-152 | an element without ')' or with something other than spaces behind the last one is refused |
| RacValue.TypeRefused | bcap_core/src/RACString/rac_string.c:154-161 | an element whose type is not written in digits and spaces is refused |
| RacValue.PrintedEmpty | bcap_core/src/RACString/rac_string.c:228-348 | of the types without an integer only VT_EMPTY has a text, the empty one |
| RacValue.ParseByNumber | bcap_core/src/RACString/rac_string.c:96-219 | a string is taken whole; every other text is split, and a scalar must be one piece |
| RacValue.PrintedSigns | bcap_core/src/dn_common.c:506-564 | 65535 is printed as `-1` in a signed type and as it is in an unsigned one |
| RacValue.PrintedSample | bcap_core/src/RACString/rac_string.c:228-348 | an array of an integer and a string is printed as `(3,5),(8,ab)` |
| RacRoundTrip.Rigid | bcap_core/src/RACString/rac_string.c:95-219 | a text that stands where a printed value would stand and parses to that value is the printed text |
| RacRoundTrip.ReadsBackExactly | bcap_core/src/RACString/rac_string.c:95-348 | printing and parsing at the same type gives every tree without floating-point and date leaves back if and only if it meets the stated bracket and comma condition |
| RacRoundTrip.CommaSplits | bcap_core/src/RACString/rac_string.c:95-348 | a string array whose one element holds a comma comes back with two |
| RacRoundTrip.WellNestedReadsBack | bcap_core/src/RACString/rac_string.c:95-348 | trees of nonempty arrays, canonical integers and strings with matched brackets come back |
| RacConvert.ConvertVariant2RacStr | bcap_core/src/RACString/rac_string.c:228-348 | the printing loops compute the specified text, and every strcat stays within the length last asked of realloc |
| RacConvert.ConvertRacStr2Variant | bcap_core/src/RACString/rac_string.c:96-219 | walking the NUL-separated buffer computes the specified parse |
| VariantHeap.Memory.SafeArrayCreateVector | bcap_core/src/dn_common.c:138-204 | a new record and zeroed data, sharing nothing, or NULL for an unknown element type |
| VariantHeap.Memory.VariantClear | bcap_core/src/dn_common.c:382-399 | every block of the tree is freed exactly once and no other block changes |
| VariantHeap.Memory.SafeArrayDestroy | bcap_core/src/dn_common.c:212-240 | the same for an array, its elements, its data and its record |
| VariantHeap.Memory.CopyNew | bcap_core/src/dn_common.c:413-496 | the copy stands for the specified value, owns only new blocks, adds no other block, and the source is untouched |
| VariantHeap.Memory.VariantCopy | bcap_core/src/dn_common.c:409-497 | the same after the old destination was released; a variant copied onto itself is left alone |
| VariantHeap.CopiedSame | bcap_core/src/dn_common.c:409-497 | a copy equals its source if and only if every type in the tree is a known one |
| VariantHeap.CopiesWhatIsSent | bcap_core/src/dn_common.c:409-497 | the copy's switches know exactly the types the writer and the array constructor know |
| VariantHeap.ElementEmptied | bcap_core/src/dn_common.c:409-497 | an array whose copy is reported as a success and differs from it |
| VariantHeap.Frame | bcap_core/src/dn_common.c:381-497 | what a tree stands for depends on its own blocks alone |
| VariantHeap.CopyThenClear | bcap_core/src/dn_common.c:381-497 | releasing a copy gives back the heap from before |
| Options.FindOption | bcap_core/src/dn_common.c:1158-1289 | the loop that deletes outer brackets from its buffer terminates and finds what the specified scan finds |
| Options.GetOptionValue | bcap_core/src/dn_common.c:1134-1329 | the result for each outcome of the search and each target type |
| Options.LookupFindsFirst | bcap_core/src/dn_common.c:1158-1289 | in any list of segments the first whose trimmed title is the key, ignoring case, gives its value; a value in brackets is kept whole with its commas, equal signs and inner brackets |
| Options.OneOption | bcap_core/src/dn_common.c:1158-1289 | a key with a value, bare or in any of the four pairs of brackets, gives that value for this key and none for another |
| Options.BrokenOption | bcap_core/src/dn_common.c:1158-1289 | a second equals sign, a closing bracket without an opening one and one never closed make the string malformed |
| Options.KeysCompared | bcap_core/src/dn_common.c:1259-1259 | two keys are the same exactly if their characters are equal or letters that differ in case |
| Options.TrimSpaces | bcap_core/src/dn_common.c:1244-1257 | spaces around a title or value, and nothing else, are dropped |
| Options.Outcomes | bcap_core/src/dn_common.c:1259-1322 | what each outcome of the search gives for the type asked for |
| Options.ConnectOptionsRead | bcap_service/src/bcap_service.cpp:119-121 | the watchdog and timeout values printed on connecting are read back past the empty first segment |
| Pendant.Connection.ReceiveExecute | bcap_core/src/TPComm/dn_tpcomm.c:452-575 | one receive cycle gives the state, clock and notification of the specification |
| Pendant.PacketCycle | bcap_core/src/TPComm/dn_tpcomm.c:452-575 | a packet by its native command: which ones need no reply, which one does not connect, and when the cycle changes nothing |
| Pendant.SilentCycle | bcap_core/src/TPComm/dn_tpcomm.c:503-568 | without a packet: what ends a connection at once, what after ten seconds, and what is notified again |
| Pendant.NoticesAlternate | bcap_core/src/TPComm/dn_tpcomm.c:503-568 | over every run CONNECT and DISCONNECT notifications alternate starting with CONNECT, and the state is CONNECT exactly after a CONNECT |
| Pendant.ErrorDisconnectExactly | bcap_core/src/TPComm/dn_tpcomm.c:513-541 | over every run: when receiving fails in a connection it is given up if and only if the last packet accepted is more than 10000 ms old or, where the clock has wrapped since, less than almost a whole turn; so within 10000 ms if and only if it has wrapped |
| Pendant.ErrorDisconnectIsLate | bcap_core/src/TPComm/dn_tpcomm.c:513-541 | a DISCONNECT caused by errors comes more than 10000 ms after every packet accepted since the clock last wrapped |
| Pendant.WrapDisconnectsAtOnce | bcap_core/src/TPComm/dn_tpcomm.c:513-541 | a run across a clock wrap with such a DISCONNECT 32 ms after an accepted packet |
| Pendant.RetryEncoding | bcap_core/src/TPComm/dn_tpcomm.c:416-421 | every retry is the same native command with the retry flag and its number modulo 8 in the top bits |
| Pendant.OutcomeByCommand | bcap_core/src/TPComm/dn_tpcomm.c:422-444 | only an answer is a success, unless its native command is 0x0E01, a rejection |
| Pendant.SendReceive | bcap_core/src/TPComm/dn_tpcomm.c:394-444 | only a timeout is retried, and the result is that of the first attempt that did not time out |
| Robotalk.CalcCrc | bcap_core/src/dn_robotalk.c:118-134 | the 16-bit sum and the 8-bit index never wrap: the result is the exact sum |
| Robotalk.Send | bcap_core/src/dn_robotalk.c:86-182 | the bytes sent are the frame, for every data length up to 248 |
| Robotalk.FrameBytes | bcap_core/src/dn_robotalk.c:86-182 | every frame at its literal offsets, the high bytes first |
| Robotalk.FrameSample | bcap_core/src/dn_robotalk.c:86-182 | one frame byte for byte |
| Robotalk.Line.Gather | bcap_core/src/dn_robotalk.c:219-252 | however the bytes arrive, the buffer holds what follows the first ENQ |
| Robotalk.Line.Attempt | bcap_core/src/dn_robotalk.c:219-304 | one receive round gives the same outcome for every chunking of the line |
| Robotalk.JudgedByLength | bcap_core/src/dn_robotalk.c:219-304 | what any bytes from an ENQ on are received as, by their length byte and sum |
| Robotalk.FrameReceived | bcap_core/src/dn_robotalk.c:85-304 | a frame after noise without an ENQ, whatever follows it, is received as the packet sent |
| Robotalk.DamageNoticed | bcap_core/src/dn_robotalk.c:118-304 | one damaged byte outside the ENQ and the length is always noticed |
| XmlText.ConvertUtf32ToUtf8 | denso_robot_core/src/tinyxml2.cpp:307-356 | the octets written backwards are the UTF-8 form |
| XmlText.Utf8Decodes | denso_robot_core/src/tinyxml2.cpp:307-356 | they decode to the value, by section 3 of RFC 3629, for every value below 0x200000 |
| XmlText.RefValueExact | denso_robot_core/src/tinyxml2.cpp:366-446 | while the digits' scales fit 32 bits the backward sum is the number they write |
| XmlText.ShortRefExact | denso_robot_core/src/tinyxml2.cpp:366-446 | up to eight hexadecimal or nine decimal digits are read as the number they write |
| XmlText.GetReference | denso_robot_core/src/tinyxml2.cpp:359-451 | no reference's UTF-8 form is longer than the reference, for any input |
| XmlText.DecimalRead | denso_robot_core/src/tinyxml2.cpp:239-258 | in any text a decimal reference of up to nine digits is replaced by octets that decode to the number it writes, and by nothing from 0x200000 on |
| XmlText.HexRead | denso_robot_core/src/tinyxml2.cpp:239-258 | a hexadecimal reference of any length likewise, by the number its last eight digits write |
| XmlText.LineEndsRead | denso_robot_core/src/tinyxml2.cpp:199-221 | a carriage return, a line feed or a pair of them is one line feed where line ends are normalised, and everything else that is no `&` is copied |
| XmlText.DecimalChinese | denso_robot_core/src/tinyxml2.cpp:235-258 | `&#20013;` becomes the three octets of U+4E2D |
| XmlText.HexChinese | denso_robot_core/src/tinyxml2.cpp:235-258 | so does `&#x4e2d;` |
| XmlText.OpenKept | denso_robot_core/src/tinyxml2.cpp:359-451 | a reference without a semicolon keeps its `&` and is read on as text |
| XmlText.NotDecimalKept | denso_robot_core/src/tinyxml2.cpp:410-437 | so does a decimal one with another character among its digits |
| XmlText.NotHexKept | denso_robot_core/src/tinyxml2.cpp:371-406 | and a hexadecimal one |
| XmlText.EntitiesRead | denso_robot_core/src/tinyxml2.cpp:256-272 | in any text the five entities give their characters |
| XmlText.GetCharacterRef | denso_robot_core/src/tinyxml2.cpp:359-451 | the pointer walk finds the specified reference |
| XmlText.Next | denso_robot_core/src/tinyxml2.cpp:196-269 | the write pointer never passes the read pointer and what was written stays |
| XmlText.UnescapedAsMeant | denso_robot_core/src/tinyxml2.cpp:196-269 | the result is the text with each stray `&` kept, if and only if every stray `&` is read where the byte under the write pointer is an `&` and no `&#` ends the text |
| XmlText.StraysKept | denso_robot_core/src/tinyxml2.cpp:196-269 | texts in which nothing before a stray `&` is shortened and no `&#` is last are unescaped as meant |
| XmlText.StaleByte | denso_robot_core/src/tinyxml2.cpp:239-269 | on `a&lt;&b` the second `&` turns into an `l` |
| XmlText.CutOffLost | denso_robot_core/src/tinyxml2.cpp:359-375 | in any text, an `&#` at the end leaves the `#` alone |
| XmlText.GetStr | denso_robot_core/src/tinyxml2.cpp:187-282 | the buffer afterwards: the unescaped text, a NUL, and everything behind it unchanged |
| XmlText.PrintString | denso_robot_core/src/tinyxml2.cpp:2053-2088 | flushing runs between entities prints the escaped text |
| XmlText.NoMarkupLeft | denso_robot_core/src/tinyxml2.cpp:2053-2088 | printed text has no markup but the `&` of its entities, and text without markup is printed unchanged |
| XmlText.EscapeRoundTrip | denso_robot_core/src/tinyxml2.cpp:187-282 | unescaping escaped text gives it with normalised line ends, and unchanged if and only if it has no CR |

## Left out

- Sockets, serial ports, `select`, mutexes, events and threads: calls outside the modelled code.
- Decoder.ReadPacket: what happens after a read or a store outside, which is undefined, ends the model's run; what is left in a partly filled argument array after a failure is not modelled, nor the freeing of it.
- Transport.Receive: TCP only; the UDP and COM receive loops are represented by their CRC comparison alone.
- Objects.Serve: E_BUSY_PROC and the option errors of ServiceStart, which leave the stack alone like any failing answer; the invoke timeout and the thread of a long call; a late completion is not on the stack.
- Relations.Conn.AddChild: the failure path of a TCP add, which frees a node that is already linked.
- Retry.EveryRun: one client and a channel that keeps the order of messages, which UDP need not do; dropping the record on ServiceStop is the event Forget.
- RacValue.Print: floating-point and VT_DATE text, which depends on `printf` and the locale; such leaves print as an error.
- RacValue.Parse: floating-point and VT_DATE leaves likewise, and arrays of VT_EMPTY and VT_NULL, for which the code writes through an unset pointer; a type number beyond the range of `int` is reduced modulo 2^16.
- RacRoundTrip.ReadsBackExactly: trees with floating-point or date leaves, for the same reason.
- RacConvert.ConvertVariant2RacStr: the buffers in which numbers and multibyte text are made.
- RacConvert.ConvertRacStr2Variant: the NULs written inside one element while its brackets are stripped are not modelled; they stay within that element.
- RacNumber.LeafRoundTrip: `VariantChangeType` between numeric types is modelled only where Bstr2Variant narrows.
- VariantHeap.Memory.VariantCopy: a NULL array in the source, which the code dereferences, is excluded; a destination other than the source itself that shares blocks with it is too.
- VariantHeap.Memory.VariantClear: the zeroing of array elements just before their array is freed is not modelled.
- Options.GetOptionValue: `wcscasecmp` beyond ASCII letters, and conversion to floating-point and VT_DATE targets.
- Pendant.Connection.ReceiveExecute: what `tp_recv` returns is an input: modem signals and the resending of the last packet on a NAK are not modelled. `timer_event` sends pings and does not change the state.
- Robotalk.Line.Attempt: the loop of `rtk_recv` around it, with its NAK packets; a last round that sees too large a length byte ends without a packet. Bytes behind a frame that arrive with it are dropped, as in the source.
- XmlText.GetStr: COLLAPSE_WHITESPACE, which neither text nor attributes ask for.
- The `VT_DATE` conversion of Linux builds, the invocation format strings of `bcap_client.c`, connection strings and command wrappers: no property beyond their bodies.
- The ROS 2 nodes, launch files, MoveIt packages and the rest of tinyxml2: libraries that are not part of this repository, or code with only easy members.
