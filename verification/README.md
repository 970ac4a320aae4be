# Verification of the water dispenser's communication and data core

The program drives the front panel of a water dispenser. It talks to an electric-control board and to a Tuya module over
serial lines, runs background tasks on worker threads, and keeps a list of water modes that it stores as JSON. This
project models the parts in which the difficulty lies and proves what they promise:

- **Receiving.** `MCU2UI::add` and `TUYA2UI::add` cut frames out of a byte stream in one small buffer. `Framing` says
  what that means for whole streams, without a buffer, and `FrameLaws` byte by byte what a frame is; `FramingProofs`
  proves what holds for every stream and every way of cutting it into chunks; `PacketBuffer` proves the buffer code,
  with its stale bytes and its moves in place, against `Framing`.
- **The engine.** `Engine` is a machine over events (a frame, a tick, a call of `send`) with a log of what the outside
  sees. Its lemmas hold over all runs: which frames are delivered, what is sent, in which order and how far apart.
- **The objects.** `PacketPool` is the free list of buffers, `UartClient` the client that shares it with its callers, and
  `ConnMgr` the part of the connection manager that fills and sends the settings. Each method is a step of the machine in
  `Engine` on frames that `Framing` cuts, so the laws of both hold of every history of the object.
- **Check codes.** `Crc` proves the table form against the bit form, the bit form against a reference that feeds single
  bits, and which errors are bound to be seen; `Remainder` that the values are remainders of polynomial division;
  `Packets` says what that means for a packet.
- **Threads.** `ThreadPool` is the hand-off between the main loop and the workers as steps that interleave at will.
- **Data and text.** `ConfMgr`, `ModeText` and `ModeLayout` are the mode list and its JSON text, `JsonEqual` the comparison of JSON
  trees, `Utf8` and `ReplaceAll` the text functions, `PageCache` the page-recycling cache.

Methods that the program writes as loops over fields and buffers are methods with loops here, proved against functions;
the functions' own properties are the lemmas beside them. `dafny verify dfyconfig.toml` checks everything.

Results that differ from what one might expect:

- The sequence of frames does depend on the chunks. The first frame never does. All frames are those of a plain parser if
  and only if every chunk is exact: no buffer that completes a frame holds bytes behind it (`FramingProofs.GreedyIffExact`).
  Frames that arrive back to back in one chunk lose every second one (`FramingProofs.BackToBackLosesEverySecond`), because
  the buffer takes what follows and is then emptied.
- The throttle for duplicates compares whole buffers, so bytes behind a frame defeat it
  (`UartClient.OverrunDefeatsThrottle`); on exact chunks it sees frames (`UartClient.UartClient.DuplicateLaws`).
- The Tuya receiver stops reading for good after a header with a full buffer behind it that declares more than 121 bytes
  of payload, and only then (`Framing.StuckIff`, `FramingProofs.ReadsOnIff`, `FramingProofs.StuckForEver`).
- `compare` is symmetric on packets of n bytes if and only if n is ten or more (`Packets.RepeatsSymmetricIff`).
- `del` dereferences every slot up to the one it looks for. `ThreadPool.DelSafeIff` says when that is safe; before every
  worker up to there has had a task it is not (`ThreadPool.DelTooEarly`).
- An update keeps the positions of the mode list in agreement if and only if it keeps the item's own position
  (`ConfMgr.EditAgreesIff`).
- A negative `count` makes `getWordChineseDouble` return the whole text (`Utf8.NegativeCountKeepsAll`,
  `Utf8.CountIsMeantIff`), while `getWord` returns nothing.
- A comment at src/protocol/mcu_ui.h:27 places the CRC in byte 15; the code puts it into the last two of the 32 bytes.
  The model follows the code.

## Model

| member | source | states |
|---|---|---|
| `FramingProofs.FirstFrameIsChunkIndependent` | src/protocol/uart_client.cc:132-172 | two chunkings of one stream agree on whether a first frame completes, and on every byte it declares |
| `FramingProofs.FirstFrame` | src/protocol/uart_client.cc:132-172 | from any state between chunks: a run hands over a frame exactly if the stream as a whole completes one, and its first frame is the stream from its first header on |
| `FramingProofs.GreedyIffExact` | src/protocol/uart_client.cc:132-172 | for every chunking, from any state between chunks: the frames are those of the parser that skips to a header, takes what it declares and goes on behind it, if and only if every chunk is exact, that is, no completed buffer holds bytes behind its frame |
| `FramingProofs.FeedAgainstGreedy` | src/protocol/uart_client.cc:137-169 | one chunk, whatever comes later: if it is exact, the parser's frames begin with its frames and go on from what it leaves; if not, it has handed over something the parser never gives |
| `FramingProofs.AllExactIffAlone` | src/protocol/uart_client.cc:132-172 | the chunks are exact if and only if every buffer handed over has exactly the length it declares |
| `FramingProofs.TightRunsAreGreedy` | src/protocol/uart_client.cc:132-172 | in particular they are exact if no chunk runs past the end of a frame |
| `FramingProofs.OverrunMayBeExact` | src/protocol/mcu_ui.h:285-349 | but not only then: a Tuya frame of 128 bytes with more input behind it in its chunk is exact |
| `FramingProofs.ByteByByte` | src/protocol/uart_client.cc:132-172 | a receiver fed single bytes equals that parser on every stream |
| `FramingProofs.SingleBytesNeverOverrun` | src/protocol/uart_client.cc:132-172 | chunks of at most one byte never run past a frame's end, from any state between chunks |
| `FramingProofs.RunPieces` | src/protocol/uart_client.cc:132-172 | for every chunking the frames are disjoint pieces of the stream, in stream order |
| `FramingProofs.BackToBackLosesEverySecond` | src/protocol/uart_client.cc:137-169 | of any number of board frames in one chunk exactly those with even index are handed over: full chunk independence is false |
| `FramingProofs.FeedKeeps` | src/protocol/uart_client.cc:137-169 | after a chunk no complete frame waits, every frame handed over is complete and fits the buffer, and input stays unread only if the receiver is stuck |
| `FramingProofs.ReadsOnIff` | src/protocol/mcu_ui.h:285-349 | a chunk is refused as a whole if and only if the receiver is stuck |
| `FramingProofs.McuReadsEverything` | src/protocol/mcu_ui.h:123-190 | the board's receiver leaves no input unread, from every state |
| `FramingProofs.StuckForEver` | src/protocol/uart_client.cc:137-140 | a stuck receiver hands over nothing and reads nothing, for every further input |
| `Framing.StuckIff` | src/protocol/mcu_ui.h:285-357 | a receiver is stuck exactly behind a Tuya header with a full buffer that declares more than 121 bytes of payload; the board's receiver never is |
| `Framing.StuckStays` | src/protocol/mcu_ui.h:285-349 | no later byte changes what a stuck receiver has read |
| `FrameLaws.BoardCompletesIff` | src/protocol/mcu_ui.h:192-199 | a stream completes a board frame if and only if sixteen bytes are there from its first 0x02 0x10 on |
| `FrameLaws.TuyaCompletesIff` | src/protocol/mcu_ui.h:350-357 | a stream completes a Tuya frame if and only if the length that bytes 4 and 5 declare, 128 at most, is there from its first 0x55 0xaa 0x00 on |
| `FrameLaws.BoardSumIff` | src/protocol/mcu_ui.h:201-212 | a board frame passes if and only if byte 15 is the sum of bytes 0 to 14 modulo 256 |
| `FrameLaws.TuyaSumIff` | src/protocol/mcu_ui.h:358-362 | a Tuya frame passes if and only if the last byte that bytes 4 and 5 declare is the sum of all bytes before it |
| `FrameLaws.LastByteDecides` | src/protocol/mcu_ui.h:201-212 | exactly one value of its last byte makes a frame pass: the sum of all bytes before, the header included |
| `Engine.SoundIsGuarded` | src/protocol/mcu_ui.h:261-267 | what the receivers let pass is what `UI2TUYA::checkcode` writes: a frame passes if and only if it ends with that sum |
| `Framing.CompletesMonotone` | src/protocol/mcu_ui.h:192-199 | a complete frame stays complete, with the same length and bytes, when more bytes arrive |
| `Framing.OneByteErrorDetected` | src/protocol/mcu_ui.h:201-212 | a frame that passes the sum check fails it after any change of one byte that leaves its length alone |
| `Bytes.SumDetects` | src/protocol/mcu_ui.h:55-63 | exchanging one byte always changes the eight-bit sum |
| `FrameLaws.SumAdds` | src/protocol/mcu_ui.h:55-63 | the sum is additive over concatenation |
| `FrameLaws.SumOfOne` | src/protocol/mcu_ui.h:55-63 | the sum of one byte is its value, that of none is zero |
| `Bytes.SumBytes` | src/protocol/mcu_ui.h:55-63 | the wrapping eight-bit total is the sum of the bytes modulo 256 |
| `PacketBuffer.FindHeadMcu` | src/protocol/mcu_ui.h:146-175 | the search returns the first header, or else the first byte that may still open one, or -1; everything before it can open none, however the stream goes on |
| `PacketBuffer.FindHeadTuya` | src/protocol/mcu_ui.h:307-335 | the same for three header bytes, of which one or two may be at the end of the buffer |
| `PacketBuffer.DropsDead` | src/protocol/mcu_ui.h:176-184 | dropping what the search gave up leaves the buffer a faithful rest of the stream |
| `PacketBuffer.CollectsTells` | src/protocol/mcu_ui.h:192-199 | a buffer that is a faithful rest tells of the stream whether it completes a frame, and holds the window of the stream from its first header on |
| `PacketBuffer.Receiver.Add` | src/protocol/mcu_ui.h:123-190 | from every reachable buffer: the bytes read are exactly the readable part of the stream, at least one unless the buffer was full, all of the input or up to a full buffer; the buffer stays a faithful rest (`TUYA2UI::add` is the same loop with its constants) |
| `PacketBuffer.Receiver.Take` | src/protocol/mcu_ui.h:129-141 | the copy appends the input bytes that fit, and nothing else |
| `PacketBuffer.Receiver.Resync` | src/protocol/mcu_ui.h:143-185 | after the search and the move the buffer starts with a header as soon as it is longer than one |
| `PacketBuffer.Receiver.Complete` | src/protocol/mcu_ui.h:192-199 | although bytes behind the received ones are read, the answer is whether the received bytes hold the frame they declare, and equally whether the stream completes one |
| `PacketBuffer.Receiver.Check` | src/protocol/mcu_ui.h:201-212 | on a complete frame only received bytes are read, and the answer is whether its last byte is the sum of the others |
| `Packets.ClosedBytes` | src/protocol/mcu_ui.h:96-102 | the valid bytes of a closed board packet are its payload and then the register over it, low byte first; a closed Tuya packet ends with the sum of the bytes before |
| `Packets.OpenedBytes` | src/protocol/mcu_ui.h:79-87 | an empty packet gets length 32 and 0x02, for Tuya (src/protocol/mcu_ui.h:243-253) 128 and 0x55 0xaa 0x03; no other byte changes, and no other packet |
| `Packets.ClosedElsewhere` | src/protocol/mcu_ui.h:96-102 | closing changes no byte but the check code; a Tuya packet gets the declared length (src/protocol/mcu_ui.h:261-267) |
| `Packets.ClosedTwice` | src/protocol/uart_client.cc:201-202 | closing a closed packet, as `send2MCU` and then `onTick` do, changes no byte and no length |
| `Packets.ClosedHasZeroResidue` | src/protocol/mcu_ui.h:96-102 | the register over the whole closed frame is zero (section 6.2.2 of MODBUS over Serial Line V1.02) |
| `Packets.ClosedIffZeroResidue` | src/protocol/mcu_ui.h:96-102 | a packet leaves a zero register if and only if closing it changes nothing |
| `Packets.DamageShows` | src/protocol/mcu_ui.h:96-102 | a closed packet damaged within two adjacent bytes no longer passes for closed |
| `Packets.RepeatsSymmetric` | src/protocol/packet_buffer.cc:73-94 | from ten bytes on, repetition is symmetric |
| `Packets.RepeatsSymmetricIff` | src/protocol/packet_buffer.cc:73-94 | repetition is symmetric on packets of n bytes if and only if n is ten or more |
| `Crc.RegisterIsBits` | src/common/crc.cc:50-91 | the byte loops compute the register that is fed the message bit by bit, for every polynomial and start value |
| `Crc.StepLinear` | src/common/crc.cc:60-65 | the bit step is linear over exclusive or |
| `Crc.EntryIsFourSteps` | src/common/crc.cc:6-21 | each table entry is what four bit steps make of its index |
| `Crc.LookUpIsFourSteps` | src/common/crc.cc:31-32 | one table look-up equals four bit steps on the register with the nibble added |
| `Crc.FucGetCrc` | src/common/crc.cc:26-36 | for every start value and message the table routine returns the complement of the bitwise 0x8408 register |
| `Crc.ShiftByte` | src/common/crc.cc:58-66 | the inner loop makes eight bit steps |
| `Crc.Crc16Ccitt` | src/common/crc.cc:50-69 | the value is the 0x8408 register from zero over the message; zero for a length that is not positive |
| `Crc.Crc16Modbus` | src/common/crc.cc:72-91 | the value is the 0xA001 register from 0xffff over the message; 0xffff for a length that is not positive |
| `Crc.TableAgreesWithBits` | src/common/crc.cc:26-69 | `Fuc_GetCRC` from zero is the complement of `CRC16_CCITT` on every message it can take |
| `Crc.BurstDetected` | src/common/crc.cc:50-91 | streams of any equal length that differ, but only within sixteen consecutive bits at any place, leave different registers |
| `Crc.AdjacentBytesDetected` | src/common/crc.cc:50-91 | messages that differ, but only within two adjacent bytes, have different check values under both routines |
| `Crc.OddErrorsDetected` | src/common/crc.cc:50-91 | messages that differ in an odd number of bits, wherever they are, have different check values under both routines |
| `Crc.ZeroResidue` | src/common/crc.cc:72-91 | a message followed by its own register, low byte first, leaves zero |
| `Crc.ResidueDecides` | src/common/crc.cc:72-91 | two trailing bytes leave zero if and only if they are that register |
| `Remainder.ModbusRemainder` | src/common/crc.cc:72-91 | for every message the value of `CRC16_Modbus`, low byte first, is the only trailer with which the message, its first sixteen bits inverted, is a multiple of x^16 + x^15 + x^2 + 1 |
| `Remainder.CcittRemainder` | src/common/crc.cc:50-69 | the value of `CRC16_CCITT` likewise, with x^16 + x^12 + x^5 + 1 and nothing inverted |
| `Remainder.EmptyIffDivides` | src/common/crc.cc:50-91 | for every register with its top bit set: from zero, a bit message leaves zero if and only if the generator divides it |
| `Remainder.CheckIsRemainder` | src/common/crc.cc:50-91 | for every start value, two bytes behind a message make it divisible if and only if they are the register over it |
| `Remainder.EmptyRegisterIff` | src/protocol/mcu_ui.h:96-102 | a packet leaves the zero residue if and only if, its first sixteen bits inverted, it is such a multiple |
| `Remainder.ModbusGenerator` | src/common/crc.cc:84-84 | 0xA001 is x^16 + x^15 + x^2 + 1 |
| `Remainder.CcittGenerator` | src/common/crc.cc:62-62 | 0x8408 is x^16 + x^12 + x^5 + 1 |
| `Remainder.BitsOfByte` | src/common/crc.cc:56-66 | the bits of a byte are taken lowest first |
| `PacketPool.SdhwPacketBuffer.Obtain` | src/protocol/packet_buffer.cc:27-53 | the buffer is all zero with length 0, was in nobody's hands, is reused if a fitting one is free; no other buffer changes hands |
| `PacketPool.SdhwPacketBuffer.FindFree` | src/protocol/packet_buffer.cc:37-44 | the first free buffer of the right type and size |
| `PacketPool.SdhwPacketBuffer.Recycle` | src/protocol/packet_buffer.cc:55-59 | a lent buffer comes back blank at the end of the list, and is lent no longer |
| `PacketPool.SdhwPacketBuffer.RecycleAll` | src/protocol/uart_client.cc:36-37 | all buffers of the queue come back, in order, each once |
| `PacketPool.SdhwPacketBuffer.Compare` | src/protocol/packet_buffer.cc:73-94 | true exactly for the board's packets of equal length and bytes that carry no key in bytes 6 to 9 |
| `PacketPool.SdhwPacketBuffer.Add` | src/protocol/packet_buffer.cc:62-66 | through the shared receiver: reads the readable part of the stream into this buffer |
| `PacketPool.SdhwPacketBuffer.Complete` | src/protocol/packet_buffer.cc:68-71 | whether this buffer's stream completes a frame |
| `PacketPool.SdhwPacketBuffer.Check` | src/protocol/packet_buffer.cc:96-100 | whether this buffer's frame has a right sum |
| `PacketPool.SdhwPacketBuffer.CheckCode` | src/protocol/packet_buffer.cc:110-113 | the buffer becomes the closed packet |
| `PacketPool.Sender.Parse` | src/protocol/mcu_ui.h:79-87 | an empty packet gets its full length and header, any other is left alone |
| `PacketPool.Sender.CheckcodeMcu` | src/protocol/mcu_ui.h:96-102 | in place: the last two bytes become the register over the others, nothing else changes |
| `PacketPool.Sender.CheckcodeTuya` | src/protocol/mcu_ui.h:261-267 | in place: the declared length is set and its last byte becomes the sum of the others |
| `Engine.EveryRun` | src/protocol/uart_client.cc:132-228 | in every reachable state: the remembered packet is the last one delivered, the queue is what was accepted and not sent, no queued packet repeats an earlier one, deliveries are complete and sound, duplicates and transmissions are spaced |
| `Engine.DeliveredIff` | src/protocol/uart_client.cc:143-166 | after any run, a completed frame is delivered if and only if its sum is right and it is no repetition of the last delivered one or comes a second after the last repetition that was delivered |
| `Engine.NewsAlwaysDelivered` | src/protocol/uart_client.cc:145-162 | after any run, a sound board frame that differs from the last delivered one, or has a byte set in 6 to 9, is delivered |
| `Engine.RepetitionHeldBack` | src/protocol/uart_client.cc:148-148 | after any run, a sound board frame that equals the last delivered one and has zeros in bytes 6 to 9 is delivered, as a duplicate, if and only if 1000 ms have gone since the last duplicate delivered |
| `Engine.UnsoundNeverDelivered` | src/protocol/uart_client.cc:145-166 | a frame with a wrong sum is never delivered |
| `Engine.TuyaAlwaysDelivered` | src/protocol/packet_buffer.cc:90-92 | every sound Tuya frame is delivered |
| `Engine.LastFrameTells` | src/protocol/uart_client.cc:157-159 | the packet compared with is that of the last delivery, and empty before the first |
| `Engine.LastAgainTells` | src/protocol/uart_client.cc:354-361 | the throttle counts from the last delivered duplicate, and from zero before the first |
| `Engine.CountersTell` | src/protocol/uart_client.cc:143-166 | over all runs the counters are the frames received, the unsound frames since the last sound one, and the packets sent |
| `Engine.DuplicatesSpaced` | src/protocol/uart_client.cc:354-361 | in every run any two delivered duplicates are at least 1000 ms apart, where a delivery is a duplicate if its buffer equals the one delivered before it as a whole, swallowed bytes included, and carries no key |
| `Engine.DuplicateIff` | src/protocol/uart_client.cc:148-162 | in every run, of two deliveries in succession the second is marked as a duplicate exactly in that case |
| `Engine.SameFrameDuplicateIff` | src/protocol/packet_buffer.cc:73-94 | of two deliveries in succession of one board frame without keys the second counts as a duplicate if and only if the bytes swallowed behind the frames agree too |
| `Engine.DeliveredWereReceived` | src/protocol/uart_client.cc:143-166 | every frame delivered was received, unchanged |
| `Engine.AcceptedIff` | src/protocol/uart_client.cc:208-228 | after any run, a packet is accepted if and only if the link is up and it repeats no accepted packet that is still unsent |
| `Engine.BoardAcceptedIff` | src/protocol/uart_client.cc:208-228 | the same for the board byte by byte: accepted if and only if the link is up and a byte of 6 to 9 is set, or every accepted unsent packet differs in length or in a valid byte |
| `Engine.TuyaAcceptedIff` | src/protocol/packet_buffer.cc:90-92 | a Tuya packet is accepted if and only if the link is up |
| `Engine.SentIsPrefixOfAccepted` | src/protocol/uart_client.cc:195-228 | in every run the packets sent are the first ones accepted, in order, each once and closed |
| `Engine.TransmissionsSpaced` | src/protocol/uart_client.cc:161-205 | in every run two transmissions are at least 100 ms apart unless a delivery lies between them |
| `Engine.TickSendsIff` | src/protocol/uart_client.cc:195-205 | after any run a tick sends if and only if a packet waits and 100 ms have gone since the time the sender counts from, and then the one accepted first |
| `Engine.LastSendTells` | src/protocol/uart_client.cc:161-196 | the sender counts from the last transmission, and from zero if a delivery came after it or there was none |
| `Engine.OneMore` | src/protocol/uart_client.cc:132-228 | how one more delivery, acceptance or transmission changes what the log says |
| `Engine.OneMoreOut` | src/protocol/uart_client.cc:150-203 | the handler's input is the delivered frames and the wire the valid bytes of the sent packets, one by one |
| `Engine.QueueHasNoRepeats` | src/protocol/uart_client.cc:215-225 | in every reachable queue no packet repeats another, in both directions from ten bytes on |
| `Engine.QueueDrains` | src/protocol/uart_client.cc:195-205 | with ticks 100 ms apart the packets waiting now have all been sent after as many ticks, whatever else arrives or is sent |
| `Engine.WireIsGuarded` | src/protocol/uart_client.cc:195-205 | in every run every packet on the wire carries the check its receiver looks for: zero residue, or the right sum |
| `Engine.AcceptedWereOffered` | src/protocol/uart_client.cc:208-228 | every accepted packet was passed to `send` |
| `Engine.ClosedGoOutAsTheyAre` | src/protocol/uart_client.cc:195-205 | packets closed by their makers are sent exactly as they were accepted |
| `UartClient.UartClient.constructor` | src/protocol/uart_client.cc:15-30 | takes two buffers from the free list; the callers' buffers stay theirs |
| `UartClient.UartClient.OnUartData` | src/protocol/uart_client.cc:132-172 | the frames dealt with are those that the framing cuts from the chunk, in order, each one a step of the machine between the times of the call; what stays in the buffer is what the framing leaves pending; nobody's buffers change hands |
| `UartClient.UartClient.OnRecvData` | src/protocol/uart_client.cc:118-130 | reports the number of frames that the chunk completed |
| `UartClient.UartClient.DealFrame` | src/protocol/uart_client.cc:143-166 | a completed frame is one step of the machine: counters, remembered packet, times and the handler's input are those that step gives |
| `UartClient.UartClient.Wanted` | src/protocol/uart_client.cc:148-148 | whether a sound frame is delivered; the time of the last duplicate moves only with a duplicate that is |
| `UartClient.UartClient.Send` | src/protocol/uart_client.cc:208-228 | one step of the machine; the caller gives the buffer away on all three paths: to the queue's end if 0 is returned, to the free list otherwise |
| `UartClient.UartClient.Repeated` | src/protocol/uart_client.cc:215-223 | whether any queued packet is repeated |
| `UartClient.UartClient.OnTick` | src/protocol/uart_client.cc:195-205 | one step of the machine; if one is due, the front buffer moves from the queue to the free list, and no other moves |
| `UartClient.UartClient.Transmit` | src/protocol/uart_client.cc:198-203 | the front packet goes out closed and its buffer comes back; the rest of the queue keeps its contents |
| `UartClient.UartClient.Close` | src/protocol/uart_client.cc:32-38 | afterwards exactly the callers' own buffers are lent |
| `UartClient.UartClient.StillValid` | src/protocol/packet_buffer.cc:27-53 | callers who obtain buffers from the shared list and write to buffers of their own disturb nothing, and what they obtain is theirs |
| `UartClient.UartClient.HistoryLaws` | src/protocol/uart_client.cc:132-228 | in every state of the object all laws of the machine hold of its history; what the handler got and what went on the wire is what the log says |
| `UartClient.UartClient.StreamLaws` | src/protocol/uart_client.cc:132-172 | over the whole life of the object and for all chunks: its frames are pieces of the stream in order, the first is the stream from its first header, and they are the plain parser's if and only if every chunk was exact |
| `UartClient.UartClient.DuplicateLaws` | src/protocol/uart_client.cc:143-166 | over the whole life of the object, if its chunks were exact: a board frame without keys delivered after the same frame counts as a duplicate and comes at least 1000 ms after every duplicate before it |
| `UartClient.OverrunDefeatsThrottle` | src/protocol/uart_client.cc:143-166 | if not, the throttle fails: every sound board frame without keys that comes again with one more byte in its chunk is delivered twice within a millisecond |
| `UartClient.UartClient.WireLaws` | src/protocol/uart_client.cc:195-205 | every packet the object ever put on the wire carries a right check |
| `UartClient.UartClient.OnePlace` | src/protocol/uart_client.cc:24-38 | every buffer ever allocated is in exactly one of free list, queue, the two receiving buffers, callers' hands; in no list twice |
| `ConnMgr.CConnMgr.Fill` | src/protocol/conn_mgr.cc:218-298 | a blank buffer gets length 32, 0x02, the settings in bytes 3 to 12, 100 in bytes 13 and 14, and a check code that leaves no residue |
| `ConnMgr.ClosedCommandBytes` | src/protocol/conn_mgr.cc:218-298 | every byte of a closed command: header, settings, filter lives, and zeros up to the check code |
| `ConnMgr.CConnMgr.Send2Mcu` | src/protocol/conn_mgr.cc:216-306 | offers exactly one packet: 32 bytes, 0x02 first, bytes 3 to 12 the current settings byte for byte, 100 in bytes 13 and 14, zeros elsewhere up to the check code, which leaves no residue; keeps no buffer, clears the beep byte and the counter and no other setting |
| `ConnMgr.CConnMgr.HandleEvents` | src/protocol/conn_mgr.cc:69-77 | one tick, then one command if settings changed or the last one is a second old, and none otherwise |
| `ConnMgr.CConnMgr.OnLine` | src/protocol/uart_client.cc:308-348 | reading the line leaves the manager's guarantees and buffers as they were |
| `ConnMgr.CConnMgr.OnTheWire` | src/protocol/conn_mgr.cc:216-306 | over the whole life of the object only such packets went out, unchanged, 32 bytes each, with their fixed bytes and no residue |
| `ConnMgr.WireCarriesCommands` | src/protocol/uart_client.cc:195-205 | if only closed commands are offered, the wire carries closed commands unchanged: the second check code shows nowhere |
| `ConnMgr.CommandsTellSettings` | src/protocol/conn_mgr.cc:218-298 | equal closed commands carry equal settings |
| `ThreadPool.EveryRun` | src/common/comm_class.cc:38-152 | the invariant holds in every state of every interleaving of any number of workers, memory being sequentially consistent |
| `ThreadPool.FirstInFirstOut` | src/common/comm_class.cc:93-128 | in every run the tasks handed over by the push steps so far are, in this order, those retired so far and then the finished list |
| `ThreadPool.CallsKeepOrder` | src/common/comm_class.cc:93-128 | in every run `onMain` is called in the order of the hand-overs, and a task that was passed over was marked deleted |
| `ThreadPool.SucceededIff` | src/common/comm_class.cc:125-125 | a task counts as done if and only if `onTask` returned 0 for a worker that had it in its slot |
| `ThreadPool.DeletedIff` | src/common/comm_class.cc:55-70 | a task is marked deleted if and only if `del` was called for it while a slot or the waiting list named it |
| `ThreadPool.FailedTaskStays` | src/common/comm_class.cc:122-132 | a task whose `onTask` did not return 0 stays with its worker, which will try it again, and nothing else changes |
| `ThreadPool.ThreeAtMost` | src/common/comm_class.cc:93-110 | in one go under the lock the main loop retires three tasks at most, and one at least if there is one |
| `ThreadPool.StepKeeps` | src/common/comm_class.cc:38-152 | each of the twenty-one steps keeps the invariant |
| `ThreadPool.ExactlyOnePlace` | src/common/comm_class.cc:76-135 | in every reachable state each added task is waiting, held by one worker alone, finished or retired, and only one of these |
| `ThreadPool.GivenInOrder` | src/common/comm_class.cc:79-89 | workers get tasks in the order of their ids, none twice, none skipped |
| `ThreadPool.OnMainIsEarned` | src/common/comm_class.cc:94-100 | `onMain` is called at most once per task, after its `onTask` returned 0 and while it is not marked deleted |
| `ThreadPool.DeletedNeverCalled` | src/common/comm_class.cc:55-70 | a task marked deleted before its `onMain` never sees it, on any continuation |
| `ThreadPool.SlotIsFreeWhenWritten` | src/common/comm_class.cc:79-85 | a slot is overwritten only after the task in it was handed to the main loop |
| `ThreadPool.RunsOwnLiveTask` | src/common/comm_class.cc:122-132 | a worker runs only a task that still exists, that it alone holds, that has not succeeded yet and was not marked deleted |
| `ThreadPool.ListIsLocked` | src/common/comm_class.cc:93-128 | the finished list changes only in the hands of the lock's owner |
| `ThreadPool.LockHolderCanMove` | src/common/comm_class.cc:93-128 | whoever holds the lock has a step to take |
| `ThreadPool.EveryTaskCanEnd` | src/common/comm_class.cc:76-135 | from every state of every interleaving some continuation, without further `add` or `del`, retires every added task, and then each has had its `onMain` called or was marked deleted before |
| `ThreadPool.NextStep` | src/common/comm_class.cc:76-135 | as long as a task is not retired, some thread has a step that brings the end closer |
| `ThreadPool.NoneIsDropped` | src/common/comm_class.cc:94-100 | in every reachable state each retired task had its `onMain` called or was marked deleted |
| `ThreadPool.DelSafeIff` | src/common/comm_class.cc:55-61 | in every reachable state `del` reads only living tasks if and only if each slot up to the hit names a task that its worker still holds or that is on the finished list |
| `ThreadPool.SlotIsLiveIff` | src/common/comm_class.cc:55-61 | the same for one slot |
| `ThreadPool.DelTooEarly` | src/common/comm_class.cc:55-61 | in every reachable state in which no worker was given a task yet no `del` is safe, not even of a task that waits |
| `ThreadPool.DelMarks` | src/common/comm_class.cc:55-70 | a safe `del` marks a task that waits or is held, nothing else changes, and one that is retired or was never added changes nothing |
| `ThreadPool.IdleBeforePushLoses` | src/common/comm_class.cc:126-130 | were TS_IDLE set before the push, an order the program does not have: the main loop could overwrite the slot if and only if it is assigning and a task waits, and then nothing names the worker's task any more |
| `ConfMgr.EveryEditing` | src/data/conf_mgr.cc:87-191 | over all sequences of appends, updates in place, deletes and moves the positions agree with the order, the list behaves as a plain sequence, and the text saved at the end restores it if and only if the list can be stored |
| `ConfMgr.EditAgreesIff` | src/data/conf_mgr.cc:87-191 | one edit keeps the agreement if and only if it is no update with a foreign position |
| `ConfMgr.EditIsPlain` | src/data/conf_mgr.cc:87-191 | apart from positions the edits are append, replace, remove and exchange, for every list |
| `ConfMgr.SaveLoadIff` | src/data/conf_mgr.cc:33-52 | a list whose positions agree comes back from its text as it was if and only if it can be stored |
| `ConfMgr.ThroughTheFile` | src/data/conf_mgr.cc:126-131 | with any JSON library that reads such texts and what it has written itself, the list also comes back through the file that the library writes |
| `ConfMgr.LoadedAgreesIff` | src/data/conf_mgr.cc:33-52 | the positions of a loaded list agree with its order if and only if they are the numbers from 1 on, each once, in whatever order the file has them |
| `ConfMgr.ShuffledSaveLoad` | src/data/conf_mgr.cc:33-52 | from the text of any rearrangement the list comes back in the order of its positions |
| `ConfMgr.SortSorts` | src/data/conf_mgr.cc:52-85 | sorting gives an ascending rearrangement of the same modes |
| `ConfMgr.OnlyOneOrder` | src/data/conf_mgr.cc:52-85 | with agreeing positions there is only one such rearrangement, whatever sorting is used |
| `ConfMgr.CConfMgr.Init` | src/data/conf_mgr.cc:13-81 | the list is that of the file, or the built-in one if there is none that parses, sorted by position |
| `ConfMgr.CConfMgr.UpdateModeDataByPos` | src/data/conf_mgr.cc:87-132 | in place the append or update; the saved text is the list's |
| `ConfMgr.CConfMgr.DeleteModeData` | src/data/conf_mgr.cc:134-169 | in place the removal, positions behind it one lower; the text built in the same loop is the new list's |
| `ConfMgr.CConfMgr.MovedMode` | src/data/conf_mgr.cc:171-191 | in place the exchange, positions kept, also for equal indices; the saved text is the list's |
| `ConfMgr.CConfMgr.Save` | src/data/conf_mgr.cc:108-126 | the loop with commas between builds the list's text |
| `ModeText.ListRoundTripIff` | src/data/conf_mgr.cc:108-126 | every list of modes reads back from its text if and only if its text fields are plain and its numbers 32-bit |
| `ModeText.ReadIsStorable` | src/data/json_func.cc:105-134 | whatever the text, only such modes are read from it |
| `ModeLayout.LayoutIsFree` | src/data/json_func.cc:4-11 | for every placing of blanks and line breaks between the marks, and every order of the members, the modes are read that the members name |
| `ModeLayout.FieldsAreNamed` | src/windows/ModeData.h:32-41 | a printed mode reads as an object that names each of the seven fields rightly and nothing else |
| `ModeLayout.FieldsAreRead` | src/data/conf_mgr.cc:38-46 | each field is taken from the member of its name, with 0 or the empty text if there is none |
| `ModeLayout.AtollReads` | src/data/json_func.cc:129-134 | blanks are passed over, a sign is taken, and reading stops at the first character that is no digit |
| `ModeLayout.ToInt32Wraps` | src/data/json_func.cc:129-134 | the conversion to `int` keeps the number modulo 2^32 |
| `ModeText.ReadObjectBack` | src/windows/ModeData.h:32-41 | one printed mode followed by anything reads back to the mode and that rest |
| `ModeText.ToStringIsMembers` | src/windows/ModeData.h:32-41 | the one long concatenation is the seven members in braces |
| `ModeText.StringRoundTripIff` | src/windows/ModeData.h:32-41 | a text field survives quoting and reading if and only if it has no quote, backslash or control character (section 7 of RFC 8259) |
| `ModeText.IntRoundTrip` | src/data/json_func.cc:129-134 | every 32-bit number survives printing, `atoll` and the conversion to `int` |
| `JsonEqual.AreJsonValuesEqual` | src/data/json_func.cc:150-188 | terminates on every tree and is true exactly for equal trees, members in any order: an equivalence relation |
| `JsonEqual.SameSizeSubset` | src/data/json_func.cc:157-166 | equal numbers of members and inclusion one way make equal key sets |
| `Utf8.EncodeDecodes` | src/common/comm_func.cc:246-276 | for every scalar value: the lead byte tells how many bytes follow and whether it is beyond ASCII, no byte is NUL, and the loop's shifts give the value back (section 3 of RFC 3629) |
| `Utf8.EncodedShape` | src/common/comm_func.cc:252-264 | which code points take how many bytes, and the ranges of leading and following bytes (section 3 of RFC 3629) |
| `Utf8.EncodeInjective` | src/common/comm_func.cc:241-287 | a well-formed string encodes one text only |
| `Utf8.WordLen` | src/common/comm_func.cc:241-287 | the number of characters; the wide string built on the way is the text itself |
| `Utf8.GetChineseWordLen` | src/common/comm_func.cc:289-322 | the number of characters beyond ASCII |
| `Utf8.WideCounts` | src/common/comm_func.cc:289-322 | that is the number of places with a code point from 0x80 on |
| `Utf8.GetWord` | src/common/comm_func.cc:382-413 | the first `count` characters, or all if there are fewer, none for a negative count |
| `Utf8.DecLastWord` | src/common/comm_func.cc:415-446 | all characters but the last |
| `Utf8.DecLastIsGetWord` | src/common/comm_func.cc:382-446 | `decLastWord(s)` is `getWord(s, wordLen(s) - 1)` |
| `Utf8.GetWordChineseDouble` | src/common/comm_func.cc:325-380 | the longest prefix of whole characters that fits into `count` when characters beyond ASCII count twice |
| `Utf8.WidthAdds` | src/common/comm_func.cc:357-366 | a character below 0x80 adds one to the width, every other one two |
| `Utf8.Fitting` | src/common/comm_func.cc:357-366 | what longest means: that prefix fits unless it is empty, and every longer one is too wide |
| `Utf8.NextDecides` | src/common/comm_func.cc:357-366 | looking one character ahead, as the loop does, is enough to find it |
| `Utf8.NegativeCountKeepsAll` | src/common/comm_func.cc:357-363 | a negative count, taken as unsigned, cuts nothing off |
| `Utf8.CountIsMeantIff` | src/common/comm_func.cc:357-363 | the comparison with the unsigned size cuts where the count says if and only if the count is not negative or the text is empty |
| `ReplaceAll.ReplaceAll` | src/common/comm_func.cc:540-549 | terminates, and the edited string is the pieces between the occurrences joined by the new value, also if that contains the old one |
| `ReplaceAll.SplitIsLeftmost` | src/common/comm_func.cc:540-549 | every occurrence replaced is the leftmost one behind the previous, and none is left in the last piece |
| `ReplaceAll.SplitJoins` | src/common/comm_func.cc:540-549 | the pieces joined by the old value are the original text |
| `ReplaceAll.JoinCons` | src/common/comm_func.cc:540-549 | joining puts the string between the pieces, once each |
| `ReplaceAll.LeftmostIsUnique` | src/common/comm_func.cc:540-549 | there is only one way to cut a text like that |
| `ReplaceAll.JoinLength` | src/common/comm_func.cc:540-549 | the length changes by the difference of the values once per occurrence |
| `PageCache.WindMgr.ShowPage` | src/windows/wind_mgr.cc:21-85 | afterwards the page of the wanted type is on the screen alone; it is the one built before if there was one, new otherwise; no page is lost or built twice; the delayed close is pending at most once |
| `PageCache.WindMgr.Reuse` | src/windows/wind_mgr.cc:42-56 | a recycled page leaves the list and comes on the screen, and the pages stay one for each type |
| `PageCache.WindMgr.TakeDown` | src/windows/wind_mgr.cc:34-40 | the current page leaves the screen and goes to the end of the list |
| `PageCache.WindMgr.Lookup` | src/windows/wind_mgr.cc:42-45 | finds a recycled page of the type if there is one |
| `PageCache.WindMgr.Build` | src/windows/wind_mgr.cc:61-82 | a page of a type not seen yet comes on the screen and joins the others |
| `PageCache.WindMgr.HandleMessage` | src/windows/wind_mgr.cc:107-122 | the delayed close never takes the current page down |
| `PageCache.WindMgr.AtMostFive` | src/windows/wind_mgr.cc:62-81 | over any run at most five pages are built |

## Left out

- Sockets, serial ports, files, DNS and shell commands: received bytes, sent packets and file contents are inputs and outputs.
- The real clock: `SystemClock` is an object that never goes back; `Engine` does not even need that, its times are arbitrary.
- The rest of the client: `init`, `readData`, `checkEvents`, heartbeats, time-outs, the statistics log of `onTick`; `src/net/client.h` is not part of this model, only "connected or not".
- Handlers: `onCommand` and the product-test callback get the frame (`handed`) and are taken not to call back into the client; the accessors of `IAck` are not modelled.
- Buffer types other than the board and Tuya, such as BT_FACTORY.
- Packets that the program could only close by writing outside their buffer: `Sendable` asks for a length of zero or at least two, and for Tuya for a declared payload of at most 121 bytes.
- Counters and positions are unbounded integers: that `mChkErrCount`, `mSendCount`, `mRecvCount` or `dataPos` overflow is not modelled.
- The setters of `CConnMgr`, `onCommDeal`, and values that `send2MCU` computes only in commented-out code; the settings start as zeros and may be anything afterwards.
- ThreadPool.DelTask: an unsafe `del`, see `ThreadPool.DelSafeIff`, is undefined in the program and no step of the model.
- ThreadPool.EveryRun: `status` and `tdata` are plain fields that the program reads and writes outside the mutex (src/common/comm_class.cc:84-85, 122-131, 149); the model takes memory as sequentially consistent, which the language does not guarantee for them.
- ThreadPool.EveryTaskCanEnd: a continuation exists; that a scheduler and tasks that may fail for ever take it is not claimed.
- ThreadPool.State: the destructor (TS_OVER), the log lines that read a task after it was handed over, sleeping, and calls of `add` from worker threads are not modelled. The main loop may pick any idle worker and may stop draining after any task, which covers the first idle one and the 500 ms limit.
- The thread pool is modelled on values as a step system; the list and slot objects themselves are not.
- ModeText.ReadArray: reads arrays of flat objects with plain string values; escapes, numbers, nesting, and text behind the array, which the JSON library reads or passes over, are not modelled.
- ConfMgr.EveryEditing: reads back the text that the program builds; between it and the file stands the JSON library's writer, of which only `ConfMgr.Library` is assumed in `ConfMgr.ThroughTheFile`; its layout and escapes are not modelled.
- ConfMgr.CConfMgr.Init: the fallback is not written to the file, and a file with JSON outside `ModeText.ReadArray` counts as JSON of which nothing is taken (`other`), also if some of it could be read.
- ConfMgr.SortByPos: `std::sort` is an insertion sort here; on equal positions the program's order is unspecified and may differ.
- ModeText.Atoll: numbers that no `long long` holds are not modelled.
- JsonEqual.AreJsonValuesEqual: real numbers are exact, so NaN and signed zeros are not modelled; member names come in an arbitrary order.
- Malformed UTF-8 and texts of 2^62 characters and more; `size_t` is taken to have 64 bits; the wide strings built only for the log are modelled where they are counted.
- ReplaceAll.ReplaceAll: an empty `old_value`, on which the program does not terminate, is excluded by precondition.
- Widgets, drawing, layouts, timers and the contents of pages, pop-up pages, the missing `break` after PAGE_WATER_ADD_ (it falls into a log line), and the `mode` and `position` passed to pages.
