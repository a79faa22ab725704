# Verification of the Neuron Modbus stack

This project models the Modbus stack of the Neuron controllers and proves properties of it: the bundled libmodbus (client,
server, RTU and TCP framing), the Modbus/TCP server in front of the boards, and the SPI link behind it with its
checksums, UART queues and firmware transfer. `dafny verify dfyconfig.toml` checks it.

Code that works in place is modelled in place: register map, client context, receive loop, UART queue, SPI handle,
buffer pool, connections and gateway are classes or methods over arrays, each proved against a function on values;
the properties are proved about these functions, and about whole runs. Sockets, SPI transfers, terminals and boards are
environments that hand over bytes in any pieces, or fail, as a parameter says.

| file | what it holds |
|---|---|
| `Bytes`, `BitPacking` | bytes, words and their bits; coils packed eight to a byte |
| `CrcBits` | a 16-bit feedback register, one bit at a time: injectivity, linearity, burst detection |
| `TableIndex`, `RtuCrcTable`, `SpiCrcTable` | the checksum tables, entry by entry |
| `RtuCrc`, `SpiCrc` | both table loops against their bitwise definitions; residue, chaining, burst detection |
| `Pdu`, `Refinement` | requests, the server's answers, the client's decoding; the operations themselves, and the refinement |
| `Transport`, `Receive` | both backends; the receive loop |
| `Transaction` | framing of everything that is sent, and whole runs of calls over the wire |
| `Standard` | server, client and framing held against function codes, exception codes, limits and byte positions as numbers |
| `Server`, `Client` | `modbus_reply` and the client calls in place, end to end |
| `RtuBus` | a slave that listens to a shared serial bus |
| `TwoPhase`, `Uart`, `ArmPty` | SPI operations, the UART queue behind them, the terminal in front of it |
| `Firmware` | the firmware transfer with its late acknowledgements |
| `RequestSplit`, `Links` | request splitting; connections and runs of the event loop, on values |
| `BufferPool`, `TcpServer` | buffer ownership, and the connections in place |
| `Boards`, `Gateway` | registers and coils behind the SPI line, and the answers of the TCP server built from them |
| `EndToEnd` | runs of calls through the gateway, and through connections, gateway and boards |

Standards: MODBUS Application Protocol V1.1b (sections 4.1 and 6.1 to 6.17), MODBUS over Serial Line V1.02 (sections
2.5.1 and 6.2.2) and the MODBUS Messaging on TCP/IP Implementation Guide V1.0b (section 3.1.3).

Where the code does not do what it is for, the model follows the code, shows an input on which it fails, and proves exactly
when it does not: the range check of function 0x17 (`Transaction.RunRefines`), the 8-bit size in request splitting
(`RequestSplit.SplitIndependent`), the last drain of a UART (`ArmPty.TerminalGetsAll`), a read for no characters
(`Uart.StreamKept`), wrapped function codes (`Transaction.AnswerFramed`), the protocol identifier
(`Transport.ForeignProtocol`), late answers (`RtuBus.RequestBehindLate`, `Transaction.LateOutcomes`), the confirmation of a firmware image
(`Firmware.SendFirmware`), bit counts beyond 255 (`Gateway.ClientSeesBoard`), what an earlier reply left in a buffer
(`TwoPhase.OwnReplyExactly`, `Gateway.OwnAnswerExactly`), the partially sent buffer (`TcpServer.SendOrQueue`), and the queue
that waits for EPOLLOUT (`Links.TakenKeeps`, `Links.QueueGoesOut`), and the end of a stream (`Links.HangUp`, `Links.HangUpUnnoticed`). The inputs are `Transaction.StrayingCall`,
`RequestSplit.LongWriteStalls`, `ArmPty.LastByteUnwritten`, `Uart.ZeroReadOverwrites`, `Transaction.WrappedCodeUnframed`,
`Transport.ProtocolOneAccepted`, `Firmware.LastPagePinned`, `Firmware.NextPageLost`, `Gateway.ThreeHundredCoils`,
`TwoPhase.NoBytesRereads`, `TwoPhase.OverlongReply`, `Gateway.OtherAnswer`, `TcpServer.HeldTwice`,
`Links.LoneRequestUnanswered` and `Links.OutAloneLoses`.

## Model

| member | source | states |
|---|---|---|
| `Transaction.RunRefines` | neuron_tcp_server/libmodbus-master/src/modbus.c:697-992 | every run of client calls over the wire gives the results and final tables of the operations applied directly, on either backend, from any transaction identifier and any stale buffer contents - if and only if no call strays below the register table |
| `Transaction.ZeroStartNeverStrays` | neuron_tcp_server/libmodbus-master/src/modbus.c:937-979 | with registers that start at address 0 no run strays |
| `Transaction.StrayingCall` | neuron_tcp_server/libmodbus-master/src/modbus.c:952-955 | a concrete write-and-read call on one register: the operation is refused, and the server passes the range check and writes below the first register |
| `Transaction.CallRefines` | neuron_tcp_server/libmodbus-master/src/modbus.c:697-992 | one call: refused for its counts, lost for straying, or done with the result and the tables of the operation |
| `Transaction.ExchangeRefines` | neuron_tcp_server/libmodbus-master/src/modbus.c:697-992 | request and answer of any call are single intact frames, and carry the operation's result and effect |
| `Transaction.BroadcastApplies` | neuron_tcp_server/libmodbus-master/src/modbus.c:986-991 | a broadcast is intact for every slave, has the effect of the operation and is not answered |
| `Transaction.LateOutcomes` | neuron_tcp_server/libmodbus-master/src/modbus.c:503-632 | a run of any calls in which every answer comes `d` calls late, for every `d`: where the client cannot tell them from the right ones - on RTU, and on TCP exactly if `d` is a multiple of 65536 - every call takes the answer to the call `d` before it for its own, with the same result or refusal if function code and count agree (bits are cut or padded within the same number of bytes) and an error otherwise; else every one is turned down for its identifier; the tables follow the calls either way |
| `Transaction.AnotherAnswer` | neuron_tcp_server/libmodbus-master/src/modbus.c:503-632 | what a client makes of an answer that was given to another call: function codes and counts decide, with as many cells as it asked for, zeros behind those that were read |
| `Transaction.LateAnswers` | neuron_tcp_server/libmodbus-master/src/modbus.c:503-632 | in a run of like calls every call gets, without a sign of it, the result of the call `d` before it, unless the identifiers give it away |
| `Transaction.RequestFramed` | neuron_tcp_server/libmodbus-master/src/modbus.c:252-324 | every request of the client is cut out of a stream as exactly itself: the receiver's length rules agree with the builders |
| `Transaction.AnswerFramed` | neuron_tcp_server/libmodbus-master/src/modbus.c:252-324 | whatever request the server answers, the answer is framed as exactly itself - if and only if the request's function code is below 0x80, or its code cut to eight bits is none with longer responses |
| `Transaction.WrappedCodeUnframed` | neuron_tcp_server/libmodbus-master/src/modbus.c:661-690 | function code 0x81 is answered with what a client takes for the beginning of a read of coils |
| `Transaction.ExpectedLength` | neuron_tcp_server/libmodbus-master/src/modbus.c:129-163 | the length the client computes from its request is the length of the normal answer the server builds, for every supported function |
| `Transaction.PiecesDoNotMatter` | neuron_tcp_server/libmodbus-master/src/modbus.c:378-466 | whatever follows it and in whatever pieces it arrives, a frame at the head of the line is taken whole and nothing beyond it |
| `Transaction.ReplyIsAdu` | neuron_tcp_server/libmodbus-master/src/modbus-tcp.c:124-150 | the answer to a request of the library's client is an ADU with the request's identifiers, for stale bytes of any value behind the request |
| `Standard.RefusedExactly` | neuron_tcp_server/libmodbus-master/src/modbus.c:718-980 | for a request of any bytes, in the numbers of the standard: exception 3 exactly for a value or count that the function does not allow, 2 exactly for cells that the table does not have (with the address of a single coil looked at before its value), 1 exactly for an unknown function; what is refused changes nothing |
| `Standard.BitsAnswered` | neuron_tcp_server/libmodbus-master/src/modbus.c:724-754 | functions 1 and 2: function code, number of bytes, and the cells eight to a byte, first one lowest, of coils and discrete inputs respectively |
| `Standard.RegistersAnswered` | neuron_tcp_server/libmodbus-master/src/modbus.c:755-788 | functions 3 and 4: the registers, high byte first, of holding and input registers respectively |
| `Standard.SingleWriteAnswered` | neuron_tcp_server/libmodbus-master/src/modbus.c:789-831 | functions 5 and 6: exactly this cell gets exactly this value, and the request is repeated |
| `Standard.ManyCoilsAnswered` | neuron_tcp_server/libmodbus-master/src/modbus.c:832-862 | function 15: exactly the addressed coils get the bits of the request, and its first five bytes are repeated |
| `Standard.ManyRegistersAnswered` | neuron_tcp_server/libmodbus-master/src/modbus.c:863-892 | function 16: exactly the addressed registers get the words of the request, and its first five bytes are repeated |
| `Standard.MaskAnswered` | neuron_tcp_server/libmodbus-master/src/modbus.c:917-936 | function 22: every bit of exactly this register is kept where the AND mask has a 1 and taken from the OR mask elsewhere |
| `Standard.WriteAndReadAnswered` | neuron_tcp_server/libmodbus-master/src/modbus.c:937-979 | function 23: the words of the request are written to exactly the addressed registers before the others are read |
| `Standard.IdentityAnswered` | neuron_tcp_server/libmodbus-master/src/modbus.c:893-909 | function 17: the bytes of the answer |
| `Standard.AnswerBytes` | neuron_tcp_server/libmodbus-master/src/modbus.c:718-992 | for a request of any bytes: the answer has its identifier and unit or its address, the right length or a good checksum, and there is none to address 0 |
| `Standard.RequestBytes` | neuron_tcp_server/libmodbus-master/src/modbus.c:1030-1475 | the bytes of every request of the client: function code, address, count or value, byte count and data |
| `Standard.AcceptedExactly` | neuron_tcp_server/libmodbus-master/src/modbus.c:503-632 | for a response of any bytes: the client accepts it exactly if length, function code and count fit its request, and reports an exception exactly for two bytes with the function code above 128 and a code below 12 |
| `Standard.DecodedExactly` | neuron_tcp_server/libmodbus-master/src/modbus.c:1030-1475 | what an accepted response is decoded to, bit by bit and word by word |
| `Standard.FramedExactly` | neuron_tcp_server/libmodbus-master/src/modbus.c:252-324 | the length of a request and of a response PDU for every function code, in numbers |
| `Standard.OverlongExactly` | neuron_tcp_server/libmodbus-master/src/modbus.c:441-452 | on either transport a message is given up as too long exactly when its byte count promises more than 253 bytes of PDU |
| `Standard.TcpBytes` | neuron_tcp_server/libmodbus-master/src/modbus-tcp.c:92-162 | the MBAP header of a TCP message, in numbers |
| `Standard.RtuBytes` | neuron_tcp_server/libmodbus-master/src/modbus-rtu.c:106-163 | address, PDU and checksum of a message on the serial line |
| `Refinement.ServeRefines` | neuron_tcp_server/libmodbus-master/src/modbus.c:697-992 | the server's answer leaves the tables as the operation would and decodes to its result; it strays exactly on the unchecked path |
| `Refinement.MaskIsChoice` | neuron_tcp_server/libmodbus-master/src/modbus.c:917-935 | `(data & and) \| (or & ~and)` keeps the register's bit where the AND mask has a 1 and takes the OR mask's bit elsewhere |
| `Refinement.ConfirmRefusal` | neuron_tcp_server/libmodbus-master/src/modbus.c:503-632 | an exception response to the request asked is reported with its code |
| `Pdu.DecodeStaysInside` | neuron_tcp_server/libmodbus-master/src/modbus.c:1030-1071 | for any response at all: once it is accepted, the counts that drive the decode loops fit inside it |
| `Pdu.RegistersRoundTrip` | neuron_tcp_server/libmodbus-master/src/modbus.c:1132-1175 | registers written high byte first are read back unchanged, whatever follows |
| `Client.Perform` | neuron_tcp_server/libmodbus-master/src/modbus.c:166-200 | the client call from arguments to results, over a line that may deliver in any pieces or fail and past the integrity checks of both sides: the direct operation's result and tables, or a link failure with the tables before or after it; steady lines fail exactly when a serial server has another address, and then the tables stay |
| `Client.Conclude` | neuron_tcp_server/libmodbus-master/src/modbus.c:1030-1071 | checking and decoding a received confirmation in place gives what the decoding function says |
| `Client.DecodeRegisters` | neuron_tcp_server/libmodbus-master/src/modbus.c:1164-1172 | the register loop of `read_registers` decodes pairs high byte first |
| `Client.Context.BuildRequest` | neuron_tcp_server/libmodbus-master/src/modbus-tcp.c:92-162 | the request buffer holds the ADU of the call, and on TCP the transaction identifier is one more than before, modulo 65536 |
| `Client.Cross` | neuron_tcp_server/libmodbus-master/src/modbus.c:340-472 | a frame crosses a line in any pieces whole, or the line fails |
| `Server.ModbusReply` | neuron_tcp_server/libmodbus-master/src/modbus.c:697-992 | the in-place server leaves in tables and response buffer exactly what the reply function says |
| `Server.AnswerPdu` | neuron_tcp_server/libmodbus-master/src/modbus.c:723-989 | dispatch on the function code: answer bytes and table changes are those of the reply function |
| `Server.AnswerWriteAndRead` | neuron_tcp_server/libmodbus-master/src/modbus.c:937-979 | registers are written before they are read; a write range below the table is detected as straying |
| `Receive.ReceiveMsg` | neuron_tcp_server/libmodbus-master/src/modbus.c:340-472 | for any bytes in any pieces: `msg_length + length_to_read` stays within the maximum, the loop ends, and what was taken is a frame, a too long message or a beginning that the line did not complete |
| `Receive.FrameStable` | neuron_tcp_server/libmodbus-master/src/modbus.c:429-453 | bytes that arrive later never change a decision |
| `Receive.AduIsFrame` | neuron_tcp_server/libmodbus-master/src/modbus.c:292-324 | framing depends on the PDU only, on both backends |
| `Receive.Port.Recv` | neuron_tcp_server/libmodbus-master/src/modbus.c:378-401 | the environment: each read hands over at least one byte and at most what is wanted, or fails |
| `Transport.IdentifiersCount` | neuron_tcp_server/libmodbus-master/src/modbus-tcp.c:92-117 | after n requests the transaction identifier is n further, modulo 65536, so that two requests have the same one exactly if their distance is a multiple of that |
| `Transport.SentIsAdu` | neuron_tcp_server/libmodbus-master/src/modbus-tcp.c:152-161 | the open length bytes of a built message do not reach the wire: `send_msg_pre` fills them from the length |
| `Transport.ConfirmationOfAdus` | neuron_tcp_server/libmodbus-master/src/modbus-tcp.c:185-209 | identifiers and protocol bytes of the own ADUs always pass the pre-check |
| `Transport.OtherConfirmationRejected` | neuron_tcp_server/libmodbus-master/src/modbus-tcp.c:188-196 | a confirmation with another transaction identifier, or from another slave than the one addressed, is rejected |
| `Transport.ForeignProtocol` | neuron_tcp_server/libmodbus-master/src/modbus-tcp.c:185-209 | the answer to the own transaction under another protocol identifier is taken as if it were Modbus if and only if one of the two bytes of the identifier is zero |
| `Transport.ProtocolOneAccepted` | neuron_tcp_server/libmodbus-master/src/modbus-tcp.c:198-206 | a read of one register answered under protocol identifier 1 is accepted |
| `Transport.AduIntact` | neuron_tcp_server/libmodbus-master/src/modbus-rtu.c:359-394 | an ADU passes the integrity check of the slave it names and of a broadcast, and is ignored by every other slave |
| `Transport.DamageNotAccepted` | neuron_tcp_server/libmodbus-master/src/modbus-rtu.c:359-394 | an accepted RTU frame changed within 16 consecutive bits, checksum and address included, is never accepted |
| `RtuCrc.Crc16` | neuron_tcp_server/libmodbus-master/src/modbus-rtu.c:132-146 | the two-table loop computes, for every message, the bitwise register of MODBUS over Serial Line V1.02 section 6.2.2, with its bytes in the order sent |
| `RtuCrc.SendMsgPre` | neuron_tcp_server/libmodbus-master/src/modbus-rtu.c:155-162 | the checksum is appended high table byte first and nothing else changes |
| `RtuCrc.SealedBySending` | neuron_tcp_server/libmodbus-master/src/modbus-rtu.c:155-162 | what is sent passes the check of the receiver |
| `RtuCrc.StandardExample` | neuron_tcp_server/libmodbus-master/src/modbus-rtu.c:132-163 | the message 02 07 has the checksum 41 12 |
| `RtuCrc.SealedIffResidueZero` | neuron_tcp_server/libmodbus-master/src/modbus-rtu.c:382-388 | a frame passes the check if and only if the register over the whole frame is zero |
| `RtuCrc.BurstUnseals` | neuron_tcp_server/libmodbus-master/src/modbus-rtu.c:382-388 | no change within 16 consecutive bits of a sealed frame of any length goes unnoticed |
| `RtuCrc.TwoChangedBytesUnseal` | neuron_tcp_server/libmodbus-master/src/modbus-rtu.c:382-388 | the same for one or two neighbouring bytes |
| `RtuCrc.RegisterBits` | neuron_tcp_server/libmodbus-master/src/modbus-rtu.c:132-146 | the byte-wise register is the bit string of the message fed into the shift register |
| `RtuCrc.LoopTurn` | neuron_tcp_server/libmodbus-master/src/modbus-rtu.c:139-143 | one turn of the table loop is one byte of the bitwise definition |
| `RtuCrcTable.TableMatches` | neuron_tcp_server/libmodbus-master/src/modbus-rtu.c:31-88 | all 512 entries of both tables are eight shifts of their index |
| `CrcBits.BurstDetected` | neuron_tcp_server/libmodbus-master/src/modbus-rtu.c:132-146 | two messages that differ within 16 consecutive bits lead to different registers, from any start and in either bit order |
| `CrcBits.FeedInjective` | neuron_tcp_server/libmodbus-master/src/modbus-rtu.c:139-143 | every step of the register is injective |
| `CrcBits.FeedByte` | neuron_tcp_server/libmodbus-master/src/modbus-rtu.c:139-143 | adding a whole byte and shifting eight times equals feeding its bits one by one |
| `RtuBus.StaysInStep` | neuron_tcp_server/libmodbus-master/src/modbus-rtu.c:304-325 | over any trace of requests to other slaves with answers, timeouts or late answers of any bytes, requests to this slave, broadcasts and garbled requests, the results of successive receptions are exactly the requests meant for it, in order, with what it takes late answers for in between |
| `RtuBus.SilenceResynchronises` | neuron_tcp_server/libmodbus-master/src/modbus-rtu.c:304-325 | whatever bytes came before it, and whether or not an answer was to be ignored, after a silence the slave waits for a request, and what it heard before is what it made of the bytes |
| `RtuBus.OverlongReported` | neuron_tcp_server/libmodbus-master/src/modbus-rtu.c:304-325 | a request whose byte count promises too much is reported as soon as this is seen, and what follows is taken for the next message |
| `RtuBus.WorksThrough` | neuron_tcp_server/libmodbus-master/src/modbus-rtu.c:304-325 | how far a listener gets with bytes, what it hears of them and what it still waits for, is decided by these bytes alone, whatever follows |
| `RtuBus.RequestBehindLate` | neuron_tcp_server/libmodbus-master/src/modbus-rtu.c:304-325 | a late answer of any bytes and a request to the listener behind it: the request is heard if and only if a silence comes between the two or the listener has worked through the answer and waits for a request |
| `RtuBus.TornRequest` | neuron_tcp_server/libmodbus-master/src/modbus-rtu.c:304-325 | otherwise the reception under way takes bytes of the request, and what is heard then, if anything, begins with what was left of the answer |
| `RtuBus.LateEchoSwallowed` | neuron_tcp_server/libmodbus-master/src/modbus-rtu.c:304-325 | a late echo followed by a silence leads to nothing |
| `RtuBus.LateEchoHidesRequest` | neuron_tcp_server/libmodbus-master/src/modbus-rtu.c:310-318 | a late echo of a write to another slave: any request to the listener that follows is then taken for an answer and lost if no silence comes between the two, and heard otherwise |
| `RtuBus.HiddenRequest` | neuron_tcp_server/libmodbus-master/src/modbus-rtu.c:310-318 | a request taken for an answer is cut: bytes are taken, and the request whole and nothing else if it could be an answer |
| `RtuBus.Slave.Receive` | neuron_tcp_server/libmodbus-master/src/modbus-rtu.c:304-325 | the method with its flag does one turn of the listening function, for any pieces |
| `RtuBus.OwnTraffic` | neuron_tcp_server/libmodbus-master/src/modbus-rtu.c:106-119 | requests of the library's client are well-formed bus traffic |
| `RtuBus.ForeignTraffic` | neuron_tcp_server/libmodbus-master/src/modbus.c:697-992 | an exchange of the client with another slave is well-formed bus traffic |
| `BitPacking.ResponseIoStatus` | neuron_tcp_server/libmodbus-master/src/modbus.c:634-658 | the packing loop writes the packed cells and nothing else |
| `BitPacking.PackSource` | neuron_tcp_server/libmodbus-master/src/modbus.c:1312-1327 | the client's packing loop writes the packed normalised cells and nothing else |
| `BitPacking.UnpackResponse` | neuron_tcp_server/libmodbus-master/src/modbus.c:1056-1067 | the client's unpacking loop restores the cells and leaves the rest of the destination |
| `BitPacking.SetBitsFromBytes` | neuron_tcp_server/libmodbus-master/src/modbus-data.c:82-94 | the server's unpacking loop sets exactly the cells of the slice |
| `BitPacking.SetBitsFromByte` | neuron_tcp_server/libmodbus-master/src/modbus-data.c:71-78 | eight cells are set from a byte |
| `BitPacking.GetByteFromBits` | neuron_tcp_server/libmodbus-master/src/modbus-data.c:98-115 | up to eight cells make a byte with zero padding |
| `BitPacking.ByteRoundTrip` | neuron_tcp_server/libmodbus-master/src/modbus-data.c:71-115 | a byte of cells and back, both ways |
| `BitPacking.UnpackPacked` | neuron_tcp_server/libmodbus-master/src/modbus.c:634-658 | packing and unpacking restores any cells, for every count |
| `BitPacking.PackedBit` | neuron_tcp_server/libmodbus-master/src/modbus.c:634-658 | bit `i` of the packed bytes is cell `i`, and padding bits are zero |
| `SpiCrc.SpiCrcString` | neuron_tcp_server/spicrc.c:44-60 | the table loop computes, for every message and start value, the byte swap of the bitwise MSB-first CRC with polynomial 0x8005 |
| `SpiCrc.TableStep` | neuron_tcp_server/spicrc.c:56-58 | one turn on the byte-swapped register is one byte of the bitwise definition |
| `SpiCrc.Chained` | neuron_tcp_server/armspi.c:171-173 | the checksum of the first part is the start value for the second |
| `SpiCrc.CheckedIffZero` | neuron_tcp_server/armspi.c:215-236 | a frame ends with its checksum, low byte first, if and only if the checksum over all of it is zero |
| `SpiCrc.BurstChangesCrc` | neuron_tcp_server/spicrc.c:44-60 | a change within 16 consecutive bits always changes the checksum |
| `SpiCrc.BurstUnchecks` | neuron_tcp_server/armspi.c:215-236 | a checked frame changed within 16 consecutive bits fails the check |
| `SpiCrc.CrcInjective` | neuron_tcp_server/spicrc.c:44-60 | different start values never meet over the same message |
| `SpiCrcTable.TableMatches` | neuron_tcp_server/spicrc.c:16-41 | all 256 entries are eight shifts of their index |
| `TwoPhase.TransfersCover` | neuron_tcp_server/armspi.c:177-204 | for every second phase that the buffers hold the transfers cover it and its checksum without gap or overlap, each 2 to 64 bytes long |
| `TwoPhase.SentIsIntact` | neuron_tcp_server/armspi.c:158-174 | both phases that go out pass the check that replies are put to |
| `TwoPhase.HonestReplyAccepted` | neuron_tcp_server/armspi.c:215-239 | a reply built the same way is accepted if and only if its header is idle or brings a character |
| `TwoPhase.CharacterTaken` | neuron_tcp_server/armspi.c:119-235 | in byte positions, with one phase or two: under a good first checksum byte 3 of a header that begins with 65 goes to the end of the queue, and byte 2 counts the remote queue with it, 256 as 0 |
| `TwoPhase.OnlyCharactersTaken` | neuron_tcp_server/armspi.c:119-235 | any other header leaves the queue alone and succeeds only as FA xx 55 0E |
| `TwoPhase.PhaseBytes` | neuron_tcp_server/armspi.c:153-180 | the bytes of both outgoing phases: operation, length and register, and the same operation and register in front of the second |
| `TwoPhase.StringTaken` | neuron_tcp_server/armspi.c:386-420 | the bytes of a string reply: 101, the length, what remains, the string |
| `TwoPhase.DamageRejected` | neuron_tcp_server/armspi.c:215-236 | damage within 16 bits of either phase is turned down, and of the first before a character is taken from it |
| `TwoPhase.SecondCoversBoth` | neuron_tcp_server/armspi.c:171-174 | the second checksum covers both phases |
| `TwoPhase.SecondBound` | neuron_tcp_server/armspi.c:171-174 | a second phase passes after one first checksum only |
| `TwoPhase.ArmHandle.TwoPhaseOp` | neuron_tcp_server/armspi.c:153-244 | the operation in place: what goes out, the verdict on what comes back, the queued character, and the receive buffer, which keeps an earlier reply where `ioctl` reports no bytes and 0 is returned |
| `TwoPhase.ArmHandle.OnePhaseOp` | neuron_tcp_server/armspi.c:119-150 | the same for one phase |
| `TwoPhase.ArmHandle.ReadString` | neuron_tcp_server/armspi.c:386-436 | `read_string` over the wire does to queue and destination what the UART model says for the decoded reply |
| `TwoPhase.AskedIs` | neuron_tcp_server/armspi.c:386-399 | an even number of characters is asked for, 240 at most |
| `TwoPhase.OwnReplyExactly` | neuron_tcp_server/armspi.c:386-436 | a read fails or takes nothing that an earlier reply left, if and only if phases were exchanged and the string announced does not reach beyond the reply |
| `TwoPhase.OverlongReply` | neuron_tcp_server/armspi.c:400-434 | a checksummed reply to a read of one character that announces 255: it is accepted, and 251 bytes of an earlier reply come with it |
| `TwoPhase.NoBytesRereads` | neuron_tcp_server/armspi.c:386-436 | where `ioctl` reports no bytes, the string of an earlier reply is read once more |
| `Uart.Fifo` | neuron_tcp_server/armspi.c:386-459 | over any run of characters and reads, what was delivered followed by the queue is what was queued followed by all that found room, in order, if and only if no read of the run overwrites; otherwise it is shorter |
| `Uart.StreamKept` | neuron_tcp_server/armspi.c:412-435 | one read keeps the stream if and only if it is not for zero characters of a non-empty queue while more arrive |
| `Uart.TakesWhatThereIs` | neuron_tcp_server/armspi.c:386-440 | a read that succeeds takes as much as there is and was asked for, and is told what remains on the other side |
| `Uart.TakesFromQueue` | neuron_tcp_server/armspi.c:438-460 | a read from the queue alone takes the front of it, and leaves what is known of the other side |
| `Uart.ZeroReadOverwrites` | neuron_tcp_server/armspi.c:428-434 | a concrete read for no characters that loses the queue |
| `Uart.OnlyOverflowLost` | neuron_tcp_server/armspi.c:109-117 | what is lost is a character that meets a full queue, which is counted, or the tail of a string that fills it |
| `Uart.RemainIsRemote` | neuron_tcp_server/armspi.c:109-112 | after a character the remaining count is that of the remote queue, for lengths up to 256 in one byte |
| `Uart.UartQueue.QueueUart` | neuron_tcp_server/armspi.c:109-117 | a character goes to the end of the queue, or the overflow is counted |
| `Uart.UartQueue.ReadString` | neuron_tcp_server/armspi.c:386-436 | the in-place moves do to buffer, index and destination what the reading function says |
| `Uart.UartQueue.ReadQueued` | neuron_tcp_server/armspi.c:438-459 | the front of the queue is delivered and the rest moves down |
| `ArmPty.TerminalGetsAll` | neuron_tcp_server/armpty.c:197-249 | the terminal gets all queued and arriving bytes in order if and only if the length of the queue and of the replies let the loop leave no more than one buffer; nothing stays queued; 256 characters in all are never too many |
| `ArmPty.RemnantIs` | neuron_tcp_server/armpty.c:208-228 | what the loop leaves in buffer and queue depends on lengths only |
| `ArmPty.OneReadBringsAll` | neuron_tcp_server/armpty.c:197-228 | where the device hands over all that waits, one read is enough |
| `ArmPty.LastByteUnwritten` | neuron_tcp_server/armpty.c:240-247 | a full queue and one more byte: the last drain takes the byte and writes nothing |
| `ArmPty.ThreeFailures` | neuron_tcp_server/armpty.c:208-228 | the loop ends with characters still waiting only through three failed reads in a row, and never goes on after three |
| `ArmPty.CollectKeeps` | neuron_tcp_server/armpty.c:208-228 | the reading loop neither loses nor reorders |
| `ArmPty.CollectInto` | neuron_tcp_server/armpty.c:197-228 | the loop in place, with `nr + wanted == 256` |
| `ArmPty.DrainInto` | neuron_tcp_server/armpty.c:229-248 | the two drains in place, the last write with length zero |
| `ArmPty.ReadUartInto` | neuron_tcp_server/armpty.c:197-249 | the whole function writes what the model says |
| `Firmware.SendFirmware` | neuron_tcp_server/armspi.c:642-680 | for every device and every pattern of failed writes: the run completes if and only if the replies, told from the device before the call, reach a good confirmation before a fatal one; a completed run leaves the image in the flash, padded with 0xff, and takes N + 1 + 2F transfers; whether it completes or not, the page behind the image holds what the confirmations made of it, one after the other, and nothing beyond that page is touched; single failures never stop it away from 0xF400 |
| `Firmware.BehindTheImage` | neuron_tcp_server/armspi.c:651-663 | without a confirmation the page behind the image is as before; after one that the device takes it is the last page of the image once more |
| `Firmware.PageNumbers` | neuron_tcp_server/armspi.c:642-680 | pages of 1024 bytes; the last page of the image is the page that the confirmation is thought to go to exactly if the image ends at 0xF800 |
| `Firmware.KeyStep` | neuron_tcp_server/armspi.c:675-678 | the key acknowledges the page sent before: all pages before `prev_addr` are right |
| `Firmware.BadStep` | neuron_tcp_server/armspi.c:664-673 | a bad reply steps back one page |
| `Firmware.SingleFailuresSurvived` | neuron_tcp_server/armspi.c:664-673 | with isolated failed writes no reply is fatal, away from 0xF400 |
| `Firmware.EndSeen` | neuron_tcp_server/armspi.c:664-673 | the comparison with `prev_addr` ends the run exactly on a bad first reply, a second one in a row, or a bad confirmation when the last page lies at 0xF400 |
| `Firmware.LastPagePinned` | neuron_tcp_server/armspi.c:660-668 | one page and one failed write: the page is sent again, but not where it lies at 0xF400 |
| `Firmware.NextPageLost` | neuron_tcp_server/armspi.c:651-663 | an image of one byte, and it stands at address 1024 as well |
| `Firmware.PagesMakeImage` | neuron_tcp_server/armspi.c:652-658 | right pages make the image, and fill up its last page |
| `Firmware.Device.Transfer` | neuron_tcp_server/armspi.c:562-576 | the environment: a page goes in, whole or spoiled, and the status of the last operation comes out |
| `RequestSplit.SplitIndependent` | neuron_tcp_server/neuron_tcp_server.c:207-259 | however a stream is split into reads, the same requests are passed on - if and only if no read leaves 256 bytes or more with a complete request among them |
| `RequestSplit.ParsedIsCutting` | neuron_tcp_server/nb_modbus.c:42-48 | the buffer is cut as meant if and only if it holds fewer than 256 bytes or no complete request |
| `RequestSplit.ParsedKeepsAll` | neuron_tcp_server/neuron_tcp_server.c:212-233 | requests followed by the leftover are the bytes of the buffer |
| `RequestSplit.RequestsBounded` | neuron_tcp_server/nb_modbus.c:42-48 | every request has a whole header and fewer than 256 bytes |
| `RequestSplit.PipelinedRequestsCut` | neuron_tcp_server/neuron_tcp_server.c:207-259 | requests sent one after another are cut into exactly those requests |
| `RequestSplit.ClientRequestPasses` | neuron_tcp_server/nb_modbus.c:42-48 | a request of the library's client gets through if and only if it is shorter than 256 bytes |
| `RequestSplit.LongWriteStalls` | neuron_tcp_server/nb_modbus.c:42-48 | a legal write of 122 or 123 registers never gets through |
| `BufferPool.Pool.constructor` | neuron_tcp_server/neuron_tcp_server.c:101-113 | 129 buffers in one chain without cycles |
| `BufferPool.Pool.Get` | neuron_tcp_server/neuron_tcp_server.c:128-141 | the top buffer leaves the stack, reset and unlinked |
| `BufferPool.Pool.Repool` | neuron_tcp_server/neuron_tcp_server.c:116-125 | a chain goes back in front of the free buffers, as one chain without cycles |
| `BufferPool.NextInChain` | neuron_tcp_server/neuron_tcp_server.c:121-123 | walking a chain visits its buffers in order and ends at the last |
| `BufferPool.ChainCounts` | neuron_tcp_server/neuron_tcp_server.c:70-76 | a chain holds as many different buffers as it has positions |
| `TcpServer.EventLoop` | neuron_tcp_server/neuron_tcp_server.c:562-729 | every run of the event loop of a new server keeps each of the 129 buffers in exactly one place, and every connection and the number of free buffers are what the model on values says after that run |
| `TcpServer.Server.Handle` | neuron_tcp_server/neuron_tcp_server.c:595-727 | one event does to its connection what the model on values says, closes it or not, and leaves the other connections and the ownership of all buffers as they were |
| `TcpServer.ReadReady` | neuron_tcp_server/neuron_tcp_server.c:674-727 | the reading loop in place agrees with the model on values, EPOLLOUT asked for where `parse_buffer` wants it |
| `TcpServer.ParseBuffer` | neuron_tcp_server/neuron_tcp_server.c:207-260 | the parsing loop in place agrees with the model on values and loses no buffer |
| `TcpServer.SendOrQueue` | neuron_tcp_server/neuron_tcp_server.c:238-255 | an answer is sent or queued as the model says; every buffer keeps one place, except that the code also gives back a buffer it queues - exactly when nothing waits and the socket refuses before it took the whole |
| `TcpServer.HeldTwice` | neuron_tcp_server/neuron_tcp_server.c:238-255 | a concrete connection whose buffer is queued and free at once |
| `TcpServer.TakeRequest` | neuron_tcp_server/neuron_tcp_server.c:224-233 | later requests move to a new buffer before the answer is built in the old one |
| `TcpServer.Conn.NbSend` | neuron_tcp_server/neuron_tcp_server.c:174-192 | the sending loop takes from the front what the socket takes, and the rest stays unsent |
| `TcpServer.WriteReady` | neuron_tcp_server/neuron_tcp_server.c:650-672 | the sending of the queue in place agrees with the model on values |
| `TcpServer.CloseEvent` | neuron_tcp_server/neuron_tcp_server.c:263-273 | closing gives both chains back to the pool and drops what was in them |
| `TcpServer.RoomIsTogether` | neuron_tcp_server/neuron_tcp_server.c:128-141 | the pool is empty exactly when the connection holds all buffers it could hold |
| `Links.RunKeeps` | neuron_tcp_server/neuron_tcp_server.c:562-729 | over any run, on every open connection what was sent and what is queued are the answers in the order of the requests, the requests and what is left over are those of the chunks read, and who waits for EPOLLOUT has something to send; on a closed one they are the first of these |
| `Links.RunSplits` | neuron_tcp_server/neuron_tcp_server.c:562-729 | over any run the requests of an open connection are those of its whole stream, if and only if no read left 256 bytes or more with a complete request among them |
| `Links.RunCounts` | neuron_tcp_server/neuron_tcp_server.c:101-141 | over any run every buffer is free or held by one connection |
| `Links.ParsingKeeps` | neuron_tcp_server/neuron_tcp_server.c:207-260 | `parse_buffer` passes on and answers what the splitting says, and wants EPOLLOUT if and only if it came upon an empty queue, leaves a queue, and leaves bytes over |
| `Links.TakenKeeps` | neuron_tcp_server/neuron_tcp_server.c:709-722 | after a read EPOLLOUT is waited for exactly then, or if it was before |
| `Links.QueueGoesOut` | neuron_tcp_server/neuron_tcp_server.c:595-672 | when the socket takes more and the loop is told, what is owed goes out if and only if EPOLLIN comes along, and no error |
| `Links.ArrivedIsRead` | neuron_tcp_server/neuron_tcp_server.c:681-725 | what arrives is read from the front, and all of it unless the connection is closed or gets no buffer |
| `Links.HangUp` | neuron_tcp_server/neuron_tcp_server.c:681-709 | a client that hangs up with nothing more to read: the connection is closed and holds no buffer if and only if it has a read buffer or can get one, or its queue met an error of the socket on the way |
| `Links.HangUpUnnoticed` | neuron_tcp_server/neuron_tcp_server.c:681-725 | the end of the stream behind fewer bytes than a read could take is not noticed |
| `Links.FailureCloses` | neuron_tcp_server/neuron_tcp_server.c:595-606 | an error closes, and so does EPOLLOUT alone |
| `Links.EndGivesBack` | neuron_tcp_server/neuron_tcp_server.c:595-709 | after the end of a connection, in any run, the pool has its buffers back and the other connections are as before |
| `Links.VisitorsLeave` | neuron_tcp_server/neuron_tcp_server.c:674-727 | however many clients connect and hang up, all buffers are free then |
| `Links.OutAloneLoses` | neuron_tcp_server/neuron_tcp_server.c:595-606 | a concrete run: an answer is queued, and the event that the socket takes more closes the connection and loses it |
| `Links.StuckForever` | neuron_tcp_server/neuron_tcp_server.c:207-260 | a queue without EPOLLOUT is never sent, whatever else happens |
| `Links.LoneRequestUnanswered` | neuron_tcp_server/neuron_tcp_server.c:212-221 | a concrete run: a lone request whose answer the socket does not take at once is never answered |
| `Links.AnsweredAtOnce` | neuron_tcp_server/neuron_tcp_server.c:674-727 | what comes to a connection that owes nothing, with room to spare, two buffers and a willing socket, is read and answered at once |
| `Links.PartialSend` | neuron_tcp_server/neuron_tcp_server.c:174-192 | a send is partial if and only if the socket refuses before it took the whole |
| `Gateway.NbModbusReply` | neuron_tcp_server/nb_modbus.c:88-302 | the answer replaces the request in place: units 1 to 3 are the three boards at the address as it is, unit 0 is the board told by the hundreds of an address below 3000 and the first one from there on, and all else is exception 11; the board that is meant is sent the order of the request, and the others nothing |
| `Gateway.ClientSeesBoard` | neuron_tcp_server/nb_modbus.c:88-302 | a client that calls a board through the gateway gets what the operation itself gives on the board's cells, which change accordingly, if and only if the call suits the board: no more than 255 bits, a single coil that is there, no function that is missing |
| `Gateway.LongReadRefused` | neuron_tcp_server/nb_modbus.c:137-151 | every read of 256 to 2000 coils is refused with exception 2, whatever the board says |
| `Gateway.LongWriteCut` | neuron_tcp_server/nb_modbus.c:222-240 | every write of 256 to 1968 coils is refused, and the board is told to write as many cells as the low byte of the count says |
| `Gateway.MissingCoilConfirmed` | neuron_tcp_server/nb_modbus.c:183-204 | a write to a single coil that is not there is confirmed |
| `Gateway.ThreeHundredCoils` | neuron_tcp_server/nb_modbus.c:137-240 | a board with 300 coils: reading and writing them all does not suit it, although the operations succeed |
| `Gateway.OwnAnswerExactly` | neuron_tcp_server/nb_modbus.c:134-293 | what the client is answered does not depend on what an earlier reply of the board left, if and only if the line exchanges or fails, or no reply is needed |
| `Gateway.OtherAnswer` | neuron_tcp_server/armspi.c:208-211 | where `ioctl` reports no bytes: one buffer for which the request is confirmed, and one for which it is refused |
| `Gateway.SwappedToWire` | neuron_tcp_server/nb_modbus.c:170-174 | swapping the bytes of the board's registers in place gives them high byte first |
| `Gateway.SwappedToHost` | neuron_tcp_server/nb_modbus.c:254-258 | swapping the bytes of a request in place gives the board its registers |
| `Gateway.Refuse` | neuron_tcp_server/nb_modbus.c:52-79 | the exception response in place |
| `Gateway.UnitZeroReaches` | neuron_tcp_server/nb_modbus.c:108-126 | unit 0 reaches, with hundreds added to an address, the board and the address that a unit of its own reaches without; from the fourth hundred on there is no board |
| `Gateway.ChosenIs` | neuron_tcp_server/nb_modbus.c:108-126 | which board and which address every unit and address come to, in digits |
| `Gateway.RefusedExactly` | neuron_tcp_server/nb_modbus.c:128-292 | for a request of any bytes and whatever the line does, in the numbers of the standard: exception 3 exactly for a value or count that the function does not allow, 1 exactly for an unknown function, 4 exactly for a single coil that the board did not take in good order, and 2 exactly where the board fell short |
| `Gateway.CoilTaken` | neuron_tcp_server/armspi.c:119-150 | a single coil is taken in good order exactly if a header with a good checksum comes back that is idle or brings a character |
| `Gateway.IdentityAnswered` | neuron_tcp_server/nb_modbus.c:271-286 | function 17: the bytes of the answer |
| `Gateway.ClientSeesBoardAt` | neuron_tcp_server/nb_modbus.c:88-302 | the same where the call reaches the board at another address than the one in the request |
| `Gateway.AnswerIsAdu` | neuron_tcp_server/nb_modbus.c:295-301 | the answer to a proper ADU is a proper ADU with the same identifiers |
| `Boards.ReadBits` | neuron_tcp_server/armspi.c:299-319 | the operation over the wire: what is asked, what is copied, and a count of eight bits |
| `Boards.ReadRegs` | neuron_tcp_server/armspi.c:255-272 | the same for registers, as many as the buffers hold; more than were asked for are refused; from 127 on the header says less than is meant, and the board is asked for 128 fewer or none |
| `Boards.WriteRegs` | neuron_tcp_server/armspi.c:274-297 | the registers go out as given, and the count comes from the reply |
| `Boards.WriteBits` | neuron_tcp_server/armspi.c:330-354 | the bits go out with the low byte of their count, and no more than the reply says are reported |
| `Boards.WriteBit` | neuron_tcp_server/armspi.c:321-328 | success means that the headers crossed |
| `Boards.OrderBytes` | neuron_tcp_server/armspi.c:255-354 | the bytes of every order: operation, register, count and cells |
| `Boards.RepliesTaken` | neuron_tcp_server/armspi.c:255-297 | a reply of another operation, or to a read of other registers, is not taken; what is taken is its count |
| `Boards.BitRepliesTaken` | neuron_tcp_server/armspi.c:299-354 | the same for bits |
| `Boards.BitsSent` | neuron_tcp_server/armspi.c:338-341 | what goes out asks a board for the low byte of the count |
| `Boards.HonestReply` | neuron_tcp_server/armspi.c:255-354 | for everything a board may hold there is a reply to every order that the operations accept and that says what the board did |
| `Boards.HonestBits` | neuron_tcp_server/armspi.c:299-319 | with a board that keeps to its side a read gives the bits asked for if and only if they are there and at most 255 |
| `Boards.HonestBitWrites` | neuron_tcp_server/armspi.c:330-354 | a write of bits is reported whole if and only if they are at most 255 and the cells are there |
| `EndToEnd.GatewayRunRefines` | neuron_tcp_server/nb_modbus.c:88-302 | over any run of calls through the gateway, to whatever units, results and the cells of all boards are those of the operations on the board that is meant, at every step, if and only if each call suits the board that the earlier ones ought to leave |
| `EndToEnd.EachTurnSeen` | neuron_tcp_server/nb_modbus.c:88-302 | every call of a run has its outcome |
| `EndToEnd.RequestThroughServer` | neuron_tcp_server/neuron_tcp_server.c:207-260 | a request that comes to a connection at rest is answered with what `nb_modbus_reply` makes of it if and only if it has fewer than 256 bytes |
| `EndToEnd.CallThroughServer` | neuron_tcp_server/neuron_tcp_server.c:674-727 | a call from the client to a unit, through connection and gateway to the boards and back, gives what the operation gives on the board that is meant, and the boards change accordingly, if and only if the request has fewer than 256 bytes and the call suits the board |
| `EndToEnd.VisitsThroughServer` | neuron_tcp_server/neuron_tcp_server.c:674-727 | after any run of the event loop, calls that come one by one on connections at rest, to whatever units, all give what the operations give on the boards that are meant, if and only if every request has fewer than 256 bytes and suits the board that the earlier ones ought to leave |
| `EndToEnd.OneVisit` | neuron_tcp_server/neuron_tcp_server.c:674-727 | one such call, and that all connections at rest before it are at rest after it when the request is short |

## Left out

- `_modbus_receive_msg`, `send_msg`: reconnecting and flushing (`MODBUS_ERROR_RECOVERY_LINK`, `MODBUS_ERROR_RECOVERY_PROTOCOL`), sleeps and the flush that `modbus_reply` does before it refuses a count. They act on what else is on the line; Transaction.LateOutcomes shows what happens without them.
- Timeouts in seconds. Only their effect is modelled: a read that hands over nothing, or a silence on the bus.
- Sockets, `epoll`, `select`, `ioctl`, pseudo-terminals, gpio and files. They are parameters: pieces of a byte stream, scripts of replies, numbers of bytes taken.
- `modbus_report_slave_id` on the client side and function 0x07 (read exception status): the second is not implemented by the server, which stays silent.
- Negative counts in client calls, and requests whose byte count disagrees with their quantity (the server does not check the latter outside of 0x17).
- Float helpers, `modbus_strerror`, setters and getters, `_modbus_rtu_connect`, RS485 and RTS handling, Windows branches, `parse_slist`, `parse_ilist`, `armutil.c`, `fwserial.c`, `fwspi.c` and command lines: finite or single-branch facts.
- Tables of bits hold only ON and OFF; in the source a cell of a bit table is a byte.
- Transaction.RunRefines: does not cover slave address 0, where the client waits in vain for an answer; Transaction.BroadcastApplies says what the server does then.
- RtuBus.StaysInStep: the listener's own answers are not on the bus it hears, and a silence follows a late answer; RtuBus.RequestBehindLate says what happens without one.
- Firmware.SendFirmware: the last confirmation goes to the page after the image, with the data of the transfer before it, although the comment in the source names page 0xF400: `tx->address` is set before the branch that changes `address`. The model follows the code, so one page after the image may be overwritten. The result of `firmware_op` is ignored by the source; the key is seen only when the device sent it.
- Firmware.Device.Transfer: the board's own firmware is not in the repository; the device is a flash, the status of its last operation and a finite script of failing writes.
- TwoPhase.ArmHandle.TwoPhaseOp: 16-bit values lie in memory low byte first, as on the machines this runs on.
- TwoPhase.ArmHandle.ReadString: the UART numbers other than 0, which the source refuses.
- ArmPty.ReadUartInto: a terminal is open and takes all it is given.
- RequestSplit.ParsedIsCutting: the test for lengths beyond the buffer in `parse_buffer` can never succeed, since the 8-bit size keeps every length below 256; it is not part of the model.
- `write_string`, `write_char`, `armpty_readpty`, `armpty_setuart`, `arm_init`: one call each of operations that are modelled.
- TcpServer.ParseBuffer: uses the send step without the second repooling of a partially sent buffer; TcpServer.SendOrQueue has both forms.
- TcpServer.WriteReady: the queue is moved on with an assignment; the source has a comparison in its place, so that the first buffer would be sent and repooled for ever. Where the queue is empty, EPOLLOUT is given up for this connection; the source leaves `event.data.ptr` of whichever connection was registered last.
- TcpServer.EventLoop: a descriptor whose connection was closed by a failed write is not read from in the same event. Interrupts, terminals and the polling of boards between events are not part of it.
- Links.AnswersTo: the answers of a connection are any function of the number and the bytes of its requests, a function of its own for every connection, so that they may depend on what other connections write in the meantime. Gateway.NbModbusReply models what gives them.
- Gateway.ClientSeesBoard: the board answers as `Boards.Honest` says: it holds coils and registers from address 0, writes all of an order or nothing, and counts in its replies what it read or wrote, up to 255. Its own firmware is not in the repository. Gateway.NbModbusReply, Gateway.LongReadRefused and Gateway.LongWriteCut hold for anything the line does.
- Gateway.NbModbusReply: a write to coil 1004 sends nothing; the programming of the board that it asks for happens later and elsewhere. What a character in a reply header does to the UART queue is stated for the operations of Boards and not again here.
