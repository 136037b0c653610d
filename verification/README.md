# OpenPLC runtime and tools, modelled and proved in Dafny

This project models seven parts of the OpenPLC stack and proves what each of them promises.

- **libmodbus as a client/server protocol** (`Bits`, `ModbusFrames`, `ModbusServer`, `ModbusClient`,
  `ModbusExchange`, `ModbusReceiver`, `ModbusBuffers`, `ModbusReply`, `ModbusCalls`, `ModbusWire`). Requests, replies
  and their lengths are functions on bytes, parametric in the transport (TCP 7/0/260, RTU 1/2/256 for
  header, checksum and frame size). The receiver, the reply branches, the packing loops and the client
  calls are methods on buffers and table arrays, each proved against those functions. The main result:
  any run of client calls over a lossless byte stream returns the values and leaves the tables of the
  direct operations in order. `ModbusWire` says byte for byte what travels, and what any other bytes are
  answered with.
- **RTU integrity and bus synchronisation** (`RtuCrc`, `RtuBus`). The two-table CRC is a fast form of the
  bit-by-bit one; bursts of at most 16 bits are always refused; a slave on a shared line stays
  frame-aligned.
- **IEC 61131-3 runtime** (`IecTime`, `IecTimers`, `IecCounters`, `IecCalendar`, `IecAlmanac`, `IecBcd`). Function blocks
  are classes with the fields of the C structs and one method per body; their outputs are then told from
  the history of the inputs alone. Calendar and BCD conversions are proved inverse, and the exact dates
  and words on which they are not are given. `IecAlmanac` states the calendar by the lengths of the months
  and one day following another, and proves both calendar conversions against it.
- **Structured Text optimizer** (`StOptimizer`, `StGrouping`, `StMeaning`). The reopen-and-rescan loop is
  proved against a function on lines, that function against grouping by header, and grouping against the
  meaning of programs.
- **Serial framing of the Arduino layer** (`SerialFraming`). An escape encoder and a decoder that uses one
  buffer for input and output.
- **The OpenPLC Modbus/TCP server** (`PlcWords`, `PlcMemory`, `PlcModbus`, `PlcSessions`, `PlcWire`). One
  16-bit register space over 16-, 32- and 64-bit variables, packed coils, and every byte of every reply.
- **matiec's variable-name decomposer** (`VarNames`). A cursor that walks a left-nested tree again on every
  call.

Bytes and words are integers with bounds (`Bits.Byte`, `Bits.Word`); `|`, `&`, `~`, `<<` and `>>` on them are
functions whose binary digits are characterised by lemmas. Truncation to 8, 16, 32 and 64 bits is written
out. Bit-vectors are used for the CRC register only. The tables of the CRC are kept as hexadecimal rows in
source order.

## Where the code differs from what it promises

Each of these is a lemma with the exact condition.

- `modbus_reply` tests the read address twice when it serves a write-and-read request
  (libmodbus_src/src/modbus.c:952-955), so a write range that starts below the register table escapes the
  check. `ModbusExchange.RemoteRunIsDirectRun` holds on every run, with this as its one case of failure
  (`ModbusServer.Escapes`, with an instance in `ModbusServer.SomeRequestEscapes`).
- For function codes 15 and 16 the server never compares the byte count with the quantity, so bytes that
  were not received can decide what is stored (`ModbusServer.DecidedByFrameIff`); for a frame the receiver
  delivers, exactly when its byte count does not cover its quantity (`ModbusServer.FrameDecidesIffCovers`).
- Bit cells are OR-ed into a reply unmasked: they come back exactly when all of them hold 0 or 1
  (`ModbusFrames.CellsSurviveIffDigits`).
- The client lets a TCP reply pass with one non-zero protocol byte, because the check joins the two
  comparisons with `&&` (libmodbus_src/src/modbus-tcp.c:198, `ModbusWire.TcpHeaderPassesIff`).
- The time normaliser can leave a whole second of nanoseconds uncarried; comparing such a sum goes wrong
  for one negative instant only (`IecTime.UncarriedIff`, `IecTime.SumAtMostIff`).
- The month search uses `>`, so the first day of each month from February on comes out as an extra day of
  the month before (`IecAlmanac.FieldsAreAlmanac`, `IecCalendar.DateAndBack`, `IecCalendar.ErrorIffNoDate`).
- On a shared RTU line a request that its slave leaves unanswered makes the next receive of every other
  slave deliver nothing (`RtuBus.NextIsNeverDelivered`). If a request comes then, with more behind it, it is
  taken off the line as it was sent exactly when it announces the same length as a reply would
  (`RtuBus.IgnoredWholeIff`).
- The optimizer also merges a nested IF whose header line repeats a top-level one, and so duplicates its
  body (`StGrouping.OptimizerGroupsIffTidy`, `StGrouping.NestedBodyIsDuplicated`). It ends with an exception
  exactly on programs that have a line whose test reads past its end, such as a blank line of seven or more
  spaces inside an IF (`StOptimizer.FinishesIff`, `StOptimizer.BlankLineAborts`). Two blocks with one header
  may be merged at a state exactly when the first body, if it runs, leaves the condition true or a state the
  second does not change (`StMeaning.JoinIff`, `StMeaning.PairIsKeptIff`, with an instance in
  `StMeaning.OwnConditionMatters`).
- In the Arduino decoder an escape left pending by earlier bytes swallows the start of a frame
  (`SerialFraming.FrameIsDelivered`). When it reports a packet, the packet stands at the front of the buffer
  exactly when the frame left open behind it agrees with it as far as both go
  (`SerialFraming.FrontIsPacketIff`, `SerialFraming.TrailingBytesAgreeIff`).
- Register address 1024 of the OpenPLC server lies outside its table (`PlcSessions.RunsIffIndexedInside`); an
  unmapped 32- or 64-bit register is read back right exactly when its two bytes are equal
  (`PlcMemory.FetchedIsStored`). `WriteMultipleRegisters` uses `Start` where `position` is meant: a block
  write is a sequence of single writes, for all words, exactly when every address of it is sound
  (`PlcSessions.BlockIffSound`, step by step `PlcMemory.BlockStepIffSound`; see also
  `PlcSessions.WholeVariableWrite`). The padding bits of a coil write are written, so the coils outside the
  range stay exactly when the padding coils already have those bits (`PlcSessions.RangeIsRespectedIff`), and
  a write refused for its address changes nothing exactly when the coils it reaches already have the bits
  sent (`PlcSessions.RefusedChangesNothingIff`).

## Model

| member | source | states |
|---|---|---|
| ModbusExchange.RemoteRunIsDirectRun | libmodbus_src/src/modbus.c:697-1506 | every run of client calls over RTU or TCP, whatever older bytes the buffers hold, returns the values and leaves the four tables of the direct operations applied in order; it breaks off exactly when a write-and-read call starts below the register table |
| ModbusExchange.ExchangeIsApply | libmodbus_src/src/modbus.c:697-992 | one call, through both frames, both receivers and both checks, is the direct operation on the tables; a broadcast is the operation without an answer |
| ModbusExchange.RequestIsServed | libmodbus_src/src/modbus.c:697-992 | the server takes exactly the request off the stream, applies it and sends the frame of its reply, nothing to a broadcast |
| ModbusExchange.ReplyIsUnderstood | libmodbus_src/src/modbus.c:503-632 | the client takes exactly the reply off the stream and hands out the values in it, or exactly the exception code the server chose |
| ModbusExchange.UntouchedCellsStay | libmodbus_src/src/modbus.c:697-992 | over a whole run every cell that no call writes, and both read-only tables, stay as they were |
| ModbusExchange.ApplyKeepsValid | libmodbus_src/src/modbus.c:789-891 | operations keep every bit cell 0 or 1, and bit reads return only 0 and 1 |
| ModbusServer.ServeIsApply | libmodbus_src/src/modbus.c:697-992 | for every request a client can build, the branch of modbus_reply taken does the operation and answers with its result or the right exception |
| ModbusServer.ServeKeepsValid | libmodbus_src/src/modbus.c:697-992 | for any bytes at all in the request buffer, the read-only tables and table sizes stay and bit cells stay 0 or 1 |
| ModbusServer.MaskedBit | libmodbus_src/src/modbus.c:917-936 | mask write takes each bit from the register where the AND mask has a one, from the OR mask elsewhere |
| ModbusServer.DecidedByFrameIff | libmodbus_src/src/modbus.c:832-892 | for codes 15 and 16 the received bytes decide reply and tables exactly when they cover the bytes the quantity announces |
| ModbusServer.StaleBytesDecide | libmodbus_src/src/modbus.c:832-892 | when they do not, two buffers with the same received bytes lead to different tables or replies |
| ModbusServer.FrameDecidesIffCovers | libmodbus_src/src/modbus.c:832-892 | a frame the receiver delivers decides reply and tables exactly when its byte count covers the quantity of an accepted write |
| ModbusServer.SomeFrameDoesNotDecide | libmodbus_src/src/modbus.c:832-862 | one received data byte and a quantity of sixteen coils: such a frame exists and does not decide |
| ModbusServer.SomeRequestEscapes | libmodbus_src/src/modbus.c:952-955 | on every table that starts above zero some request a client can build escapes the address guard |
| ModbusFrames.FrameIsReceived | libmodbus_src/src/modbus.c:340-472 | a framed self-delimiting data unit is received as exactly its bytes, leaving exactly what follows |
| ModbusFrames.RequestIsSelfDelimiting | libmodbus_src/src/modbus.c:252-324 | the meta and data lengths computed from any request a client builds are its actual length |
| ModbusFrames.CellsSurviveIffDigits | libmodbus_src/src/modbus.c:634-658 | cells packed by the server and unpacked by the client are unchanged exactly when all of them are 0 or 1 |
| ModbusFrames.ReadWordsOfWords | libmodbus_src/src/modbus.c:1345-1391 | registers sent high byte first are read back unchanged |
| ModbusClient.ReplyLength | libmodbus_src/src/modbus.c:129-163 | a normal reply has exactly the length computed from the request, an exception reply header, function, code and checksum |
| ModbusClient.ReplyIsSelfDelimiting | libmodbus_src/src/modbus.c:252-324 | every reply to a request the client builds announces its own length to the receiver |
| ModbusClient.AnswerIsSelfDelimiting | libmodbus_src/src/modbus.c:252-324 | so does every answer the server builds for any request bytes with a function code below 0x80, the slave-id report and the refusals included |
| ModbusClient.CountOfReadBits | libmodbus_src/src/modbus.c:503-632 | a bit-read reply that passes the check carries ceil(nb/8) bytes |
| ModbusReceiver.ReceiveMessage | libmodbus_src/src/modbus.c:340-472 | however recv cuts the stream, the same frame ends up in the buffer, the same bytes remain and the same error is reported; reading never passes the frame limit and ends |
| ModbusReceiver.AdvanceFollowsStream | libmodbus_src/src/modbus.c:429-458 | at the end of each step the next step and its length, decided from the prefix read, are those of the whole stream, within the limit and with fewer steps left |
| ModbusBuffers.PutBits | libmodbus_src/src/modbus.c:634-658 | response_io_status writes exactly the packed cells and nothing else |
| ModbusBuffers.SetBitsFromBytes | libmodbus_src/src/modbus-data.c:82-94 | the cells addressed become the bits of the bytes, all others stay |
| ModbusBuffers.BuildRequestBasis | libmodbus_src/src/modbus-rtu.c:106-119 | header, function, address and count stand in the buffer, the bytes behind them are untouched |
| ModbusBuffers.BuildResponseBasis | libmodbus_src/src/modbus-tcp.c:124-144 | header with the request's transaction number and slave, then the function |
| ModbusBuffers.SendMsgPre | libmodbus_src/src/modbus-tcp.c:152-161 | after it the buffer holds a whole frame of either transport: the checksum appended, or bytes 4 and 5 the number of bytes behind them |
| ModbusBuffers.FillLength | libmodbus_src/src/modbus-tcp.c:152-161 | bytes 4 and 5 become the number of bytes behind them, and the message is the frame of the header and data unit it held |
| ModbusBuffers.AppendCrc | libmodbus_src/src/modbus-rtu.c:155-162 | the check bytes of the message are stored behind it, low byte of the register first |
| ModbusReply.Reply | libmodbus_src/src/modbus.c:697-992 | on a buffer and the mapping's arrays, the tables become and the bytes sent are those of the server's turn |
| ModbusReply.Dispatch | libmodbus_src/src/modbus.c:720-988 | every branch computes its table update and its reply in place, leaving the request buffer alone; what the default and the refusing branches answer is said in bytes by the rows of `ModbusWire` |
| ModbusCalls.BuildRequest | libmodbus_src/src/modbus.c:1230-1506 | each client call fills its buffer with exactly the frame of the request, the mask write through its overwritten header too |
| ModbusCalls.UnpackInto | libmodbus_src/src/modbus.c:1055-1068 | the reply's bits land in the first nb cells of the caller's array and nowhere else |
| ModbusCalls.RemoteCall | libmodbus_src/src/modbus.c:1030-1506 | a whole call with every byte in real buffers and ports: tables as after the direct operation, the caller's arrays holding its result, the return value its count or exception code |
| ModbusWire.TcpFrameBytes | libmodbus_src/src/modbus-tcp.c:92-161 | every TCP frame is transaction, protocol, the frame's length less six, unit and data unit, at these bytes |
| ModbusWire.RtuFrameBytes | libmodbus_src/src/modbus-rtu.c:106-162 | every RTU frame is address, data unit and two bytes that bring the bitwise CRC from 0xFFFF to zero |
| ModbusWire.ShortRequestBytes | libmodbus_src/src/modbus.c:1030-1068 | the five bytes of a read or single write and the seven of a mask write, with function codes and bytes in numbers |
| ModbusWire.WriteBitsBytes | libmodbus_src/src/modbus.c:1282-1343 | code 15, address, quantity, byte count, and bit i of the call as bit i mod 8 of byte i div 8 |
| ModbusWire.WriteRegistersBytes | libmodbus_src/src/modbus.c:1345-1391 | code 16, address, quantity, byte count and the words, high byte first |
| ModbusWire.WriteAndReadBytes | libmodbus_src/src/modbus.c:1431-1506 | code 23, both addresses and quantities, byte count and the words at byte 10 |
| ModbusWire.ReplyToReadBitsBytes | libmodbus_src/src/modbus.c:724-754 | the reply to a bit read: code, byte count, and each cell's bit in its place |
| ModbusWire.ReplyToReadRegistersBytes | libmodbus_src/src/modbus.c:755-788 | the reply to a register read: code, byte count, words high byte first |
| ModbusWire.ReplyToWriteBytes | libmodbus_src/src/modbus.c:789-936 | the reply to a write is the request's first bytes |
| ModbusWire.UnknownCodeRefused | libmodbus_src/src/modbus.c:983-987 | any bytes with a function code outside the twelve leave the tables alone and are answered with that code plus 128 and a one |
| ModbusWire.UnknownRequestIsAnswered | libmodbus_src/src/modbus.c:340-472 | from end to end: the one-byte request of such a code is taken off the stream and its exception framed, for a broadcast nothing sent |
| ModbusWire.CodesWithoutAddress | libmodbus_src/src/modbus.c:893-916 | 0x11 is answered with the identification, 0x07 not at all |
| ModbusWire.ReadsRefused | libmodbus_src/src/modbus.c:724-788 | of any bytes with codes 1 to 4: a quantity of zero or above 2000 or 125 gives exception 3, then a missing cell exception 2, anything else an answer |
| ModbusWire.SingleWritesRefused | libmodbus_src/src/modbus.c:789-936 | a missing cell gives exception 2, a coil value other than 0xFF00 and 0 exception 3, anything else the echo |
| ModbusWire.MultipleWritesRefused | libmodbus_src/src/modbus.c:832-892 | a quantity of zero or above 1968 or 123 gives exception 3, a missing cell exception 2, anything else the first five bytes |
| ModbusWire.WriteAndReadRefused | libmodbus_src/src/modbus.c:937-981 | a quantity or byte count out of range gives exception 3; a missing read cell, or a write that ends behind the table, exception 2 |
| ModbusWire.FrameEnd | libmodbus_src/src/modbus.c:252-472 | for any stream and either direction: where the first frame ends, that it is too long exactly beyond 256 or 260 bytes, and when there is none |
| ModbusWire.CountIsEarned | libmodbus_src/src/modbus.c:503-632 | a confirmation that counts is for this transaction or slave and function, has the computed length and carries the quantity asked for |
| ModbusWire.ExceptionIsReported | libmodbus_src/src/modbus.c:535-557 | a reply with the highest bit set hands on its code exactly when that is below 12 and the reply well formed, and is a bad exception otherwise |
| ModbusWire.TcpHeaderPassesIff | libmodbus_src/src/modbus-tcp.c:185-209 | the header check passes exactly for this transaction and protocol bytes not both non-zero |
| ModbusWire.OtherTransactionRefused | libmodbus_src/src/modbus-tcp.c:185-195 | from end to end: the reply to another transaction is refused as bad data, whatever it carries |
| ModbusWire.TransactionsDiffer | libmodbus_src/src/modbus-tcp.c:98-104 | successive calls carry successive transaction numbers modulo 65536 |
| RtuCrc.ComputeCrc16 | libmodbus_src/src/modbus-rtu.c:132-146 | the table-driven loop computes the byte-swapped register of the bitwise CRC folded from 0xFFFF |
| RtuCrc.Crc16Calc | core/hardware_layers/pixtend.cpp:155-171 | the eight-shift loop is one byte step of the bitwise register |
| RtuCrc.TablesAreShift8 | libmodbus_src/src/modbus-rtu.c:31-90 | all 512 table entries are the two bytes of eight shifts of their index |
| RtuCrc.TableStep | libmodbus_src/src/modbus-rtu.c:132-146 | one table lookup step is one bitwise byte step, from every register value |
| RtuCrc.FoldIsFoldBits | core/hardware_layers/pixtend.cpp:155-171 | folding bytes is folding the bits in line order |
| RtuCrc.ResidueIsZero | core/hardware_layers/pixtend.cpp:155-171 | the register's own two bytes, low first, are the only ones that bring it to zero |
| RtuCrc.AcceptedIffResidueZero | libmodbus_src/src/modbus-rtu.c:359-394 | a frame for this slave passes exactly when the bitwise CRC over all of it is zero |
| RtuCrc.FreshFrameAccepted | libmodbus_src/src/modbus-rtu.c:155-162 | a frame with the sender's checksum always passes |
| RtuCrc.BurstRejected | libmodbus_src/src/modbus-rtu.c:359-394 | any change within 16 consecutive bits of an accepted frame makes it refused |
| RtuCrc.AlteredBytesRejected | libmodbus_src/src/modbus-rtu.c:359-394 | one altered byte or two adjacent ones behind the address give -1 |
| RtuCrc.KnownCheckBytes | libmodbus_src/src/modbus-rtu.c:132-162 | the check bytes of the message 02 07 are 41 12 |
| RtuBus.SlaveStaysInStep | libmodbus_src/src/modbus-rtu.c:304-325 | where every request to another slave is followed by one reply, the slave delivers exactly its own requests and the broadcasts, in order, for the whole run |
| RtuBus.NextIsNeverDelivered | libmodbus_src/src/modbus-rtu.c:304-325 | after a request that its slave leaves unanswered, the next receive delivers nothing and reports no failure, whatever bytes follow |
| RtuBus.IgnoredWholeIff | libmodbus_src/src/modbus-rtu.c:304-325 | a request taken for the missing reply is consumed as sent, with more behind it, exactly when it announces the same length as a reply would |
| RtuBus.UnansweredRequestCostsTheNext | libmodbus_src/src/modbus-rtu.c:304-325 | in that case it is lost and the slave is back in step |
| RtuBus.OwnFrameIsChecked | libmodbus_src/src/modbus-rtu.c:304-394 | a frame for this slave, whatever its check bytes, is delivered exactly when the bitwise CRC over it is zero and is a failure otherwise; the flag stays clear |
| RtuBus.ForeignFrameIsNotChecked | libmodbus_src/src/modbus-rtu.c:359-372 | a frame for another slave sets the flag whatever its check bytes |
| RtuBus.DamageIsContained | libmodbus_src/src/modbus-rtu.c:304-325 | a damaged frame for this slave costs one failed receive, and every request behind it on the line is delivered in order |
| RtuBus.Slave.Receive | libmodbus_src/src/modbus-rtu.c:304-325 | one receive on a port flips the flag and returns length, 0 or -1 as the frame at the head of the stream demands |
| IecTime.Timespec.Normalize | core/lib/iec_std_lib.h:169-178 | the two corrections in order, without changing the instant meant |
| IecTime.UncarriedIff | core/lib/iec_std_lib.h:169-183 | a sum keeps the instant, and is left uncarried exactly when the nanoseconds add up to one second with seconds from zero on or to minus one second with seconds up to zero |
| IecTime.SumAtMostIff | core/lib/iec_std_lib.h:360-366 | comparing an added time with a third is exact unless the nanoseconds add up to minus one second, the seconds to at most zero, and the third is the very instant of the sum |
| IecTime.DeadlineIsExact | core/lib/iec_std_lib.h:360-366 | with a preset time from zero on a deadline test is exact on any normalised clock although the sum may be uncarried |
| IecTimers.TonIsOnDelay | core/lib/iec_std_FB.h:1461-1503 | over every scan sequence Q holds exactly when IN has been true since a rising edge at an earlier scan and PT has passed; ET is the elapsed time cut at PT |
| IecTimers.TofIsOffDelay | core/lib/iec_std_FB.h:1523-1563 | Q holds with IN and after a falling edge until the first later scan with PT passed; ET counts from that edge up to PT |
| IecTimers.TpIsPulse | core/lib/iec_std_FB.h:1401-1441 | Q holds exactly from a trigger until the first later scan with PT passed, whatever IN does; a new trigger needs a scan with IN false at or after the end of the last pulse; ET is the time since the last trigger cut at PT, and zero from that scan on |
| IecTimers.Timer.TonBody | core/lib/iec_std_FB.h:1461-1503 | one scan of the struct's fields, none with EN false |
| IecTimers.Timer.TofBody | core/lib/iec_std_FB.h:1523-1563 | one scan of the struct's fields, none with EN false |
| IecTimers.Timer.TpBody | core/lib/iec_std_FB.h:1401-1441 | one scan of the struct's fields, none with EN false |
| IecCounters.CtuCountsEdges | core/lib/iec_std_FB.h:694-718 | CV is the smaller of PV and the rising edges of CU since the last reset scan, and zero for a negative PV |
| IecCounters.CtdCountsDown | core/lib/iec_std_FB.h:904-928 | CV is PV less the rising edges of CD since the last load, not below zero, and a negative PV itself |
| IecCounters.CtudWalks | core/lib/iec_std_FB.h:1118-1153 | CV is the walk in which R beats LD beats counting and opposite edges cancel, and stays within 0 and PV |
| IecCounters.CtudBalances | core/lib/iec_std_FB.h:1118-1153 | away from the bounds CV changes by rising edges of CU less those of CD |
| IecCounters.NegativePreset | core/lib/iec_std_FB.h:1118-1153 | with a negative PV the count is PV after a load not followed by a reset, and zero otherwise |
| IecCounters.RTrig.Body | core/lib/iec_std_FB.h:561-579 | Q for exactly the scan in which CLK became true |
| IecCalendar.ConvertAndBack | core/lib/iec_std_lib.h:284-345 | any second count, negative ones too, comes back as the start of its day, and the clock fields are the rest of it |
| IecCalendar.ClosedFormCountsLeapDays | core/lib/iec_std_lib.h:319-345 | the shift-and-divide formula counts the leap days a year-by-year loop counts |
| IecCalendar.DateAndBack | core/lib/iec_std_lib.h:284-345 | a date comes back as itself except the first days of February to December, which come back as one day too many of the month before |
| IecCalendar.ErrorIffNoDate | core/lib/iec_std_lib.h:319-345 | the way back reports an error exactly for fields that are no calendar date, which are exactly the first days of months two to twelve |
| IecCalendar.ConvertSecondsToDateAndTime | core/lib/iec_std_lib.h:284-317 | the year and month loops end and compute the fields that `IecAlmanac.FieldsAreAlmanac` tells from the calendar |
| IecAlmanac.MonthLengths | core/lib/iec_std_lib.h:267-273 | the cumulative table is the running sum of 30 days for April, June, September and November, 28 or 29 for February and 31 for the others |
| IecAlmanac.FieldsAreAlmanac | core/lib/iec_std_lib.h:284-317 | every second count is shown as the date reached from 1 January 1970 by going that many days forward or back one at a time, the first of a month from February on as one day too many of the month before; hour, minute and second are the rest |
| IecAlmanac.DayOfAlmanacIsItsNumber | core/lib/iec_std_lib.h:319-345 | the date reached that way is turned into 86400 times the number of days, without an error |
| IecAlmanac.AnyDayCountsOn | core/lib/iec_std_lib.h:319-345 | any other day number counts on from the first of its month, and is an error exactly above the length of the month |
| IecAlmanac.TwoDays | core/lib/iec_std_lib.h:284-345 | zero is 1 January 1970 and 1683676800 is 10 May 2023 |
| IecBcd.EncodeThenDecode | core/lib/iec_std_lib.h:691-719 | encoding gives a word the test accepts and decoding gives the number back |
| IecBcd.DecodeThenEncodeIff | core/lib/iec_std_lib.h:691-719 | the opposite trip is the identity exactly on words whose nibbles are all decimal digits |
| IecBcd.NibblesAreDigits | core/lib/iec_std_lib.h:710-719 | nibble k of the encoded word is decimal digit k of the number |
| IecBcd.BcdToUint | core/lib/iec_std_lib.h:699-708 | on every 64-bit word the wrapping loop reads the nibbles in base ten without wrapping |
| IecBcd.UintToBcd | core/lib/iec_std_lib.h:710-719 | below ten to the sixteenth the loop of shifts and ors builds the nibbles without leaving the word |
| IecBcd.TestBcd | core/lib/iec_std_lib.h:691-697 | true exactly for words with a nibble above nine |
| StOptimizer.Optimizer.Run | st_optimizer_src/st_optimizer.cpp:100-191 | the loop that reopens and rescans its input, stopped by any exception of the line tests, writes the rewriting of the file |
| StOptimizer.IsIfStatement | st_optimizer_src/st_optimizer.cpp:40-57 | yes, no, or reading past the end of the line; `StOptimizer.IfLine` says on which characters |
| StOptimizer.IsEndIfStatement | st_optimizer_src/st_optimizer.cpp:62-79 | the same for the terminator line, by `StOptimizer.EndIfLine` |
| StOptimizer.IfLine | st_optimizer_src/st_optimizer.cpp:40-57 | with n leading spaces the test is yes exactly when `I`, `F` and a space follow, and reads past the end exactly when a line of three or more characters stops after `I` or `IF` |
| StOptimizer.EndIfLine | st_optimizer_src/st_optimizer.cpp:62-79 | yes exactly when `END_IF;` follows the spaces; past the end exactly when a line of seven or more characters stops inside it, or is all spaces |
| StOptimizer.FinishesIff | st_optimizer_src/st_optimizer.cpp:40-191 | on every program, nested well or not, the optimizer finishes exactly when no test it makes reads past the end of a line: the first test outside every IF, both tests inside |
| StGrouping.OptimizerGroupsIffTidy | st_optimizer_src/st_optimizer.cpp:100-191 | on every well-nested program the output is the first block of each header with all bodies of that header in order, exactly when no merged header has a non-empty block nested verbatim in a later block with another header |
| StGrouping.ParseIsExact | st_optimizer_src/st_optimizer.cpp:100-136 | every well-nested text is the text of plain lines and balanced blocks |
| StGrouping.UnnestedIsTidy | st_optimizer_src/st_optimizer.cpp:142-159 | a program with no header inside a block of another header satisfies that condition |
| StGrouping.NestedBodyIsDuplicated | st_optimizer_src/st_optimizer.cpp:142-159 | the smallest programs that violate it: the nested body is written twice |
| StGrouping.HeadersOnce | st_optimizer_src/st_optimizer.cpp:106-119 | every top-level header occurs in the result, and occurs once |
| StGrouping.BodiesKept | st_optimizer_src/st_optimizer.cpp:142-159 | under each header the same statements in the same order, and the plain lines in theirs |
| StGrouping.StatementsConserved | st_optimizer_src/st_optimizer.cpp:100-191 | as a multiset no statement is lost, duplicated or invented |
| StGrouping.TwiceIsOnce | st_optimizer_src/st_optimizer.cpp:100-191 | a second run of the optimizer changes nothing |
| StMeaning.OptimizerKeepsMeaning | st_optimizer_src/st_optimizer.cpp:100-191 | the optimized program computes the same final state from every initial state when merged bodies have no ELSE, moved bodies commute with what they pass, and conditions keep their value in between |
| StMeaning.ExecConcat | st_optimizer_src/st_optimizer.cpp:141-159 | running two balanced bodies as one text is running one after the other |
| StMeaning.JoinIff | st_optimizer_src/st_optimizer.cpp:141-159 | two blocks with one header are one block, from a given state, exactly when the first body, if it runs, leaves the condition true or a state the second does not change |
| StMeaning.PairIsKeptIff | st_optimizer_src/st_optimizer.cpp:141-159 | the program of two such blocks ends in the same state after grouping under exactly that condition |
| SerialFraming.Encode | core/hardware_layers/arduino.cpp:169-188 | the bytes sent are the framed and escaped payload and the rest of the buffer is untouched |
| SerialFraming.EncodedLength | core/hardware_layers/arduino.cpp:160-189 | payload, one byte more for each special byte, and two: at most twice the payload and two |
| SerialFraming.EncodedBytes | core/hardware_layers/arduino.cpp:160-189 | the bytes are 53, each payload byte with 5C before it if it is 53, 45 or 5C, and 45 |
| SerialFraming.ParseBuffer | core/hardware_layers/arduino.cpp:206-273 | decoding in place gives what decoding into a buffer of its own gives, laid over the front of the input |
| SerialFraming.ReadHolds | core/hardware_layers/arduino.cpp:206-273 | writing never overtakes reading, and the output holds the open frame and behind it what is left of the packet |
| SerialFraming.RoundTrip | core/hardware_layers/arduino.cpp:169-273 | an encoded payload with start-free noise on both sides gives true and the payload at the front of the buffer |
| SerialFraming.FrameIsDelivered | core/hardware_layers/arduino.cpp:206-273 | after any bytes at all the frame is reported, and the packet is the payload exactly when no escape was pending |
| SerialFraming.CutInsideEscape | core/hardware_layers/arduino.cpp:206-273 | a frame cut anywhere leaves an escape pending exactly when the cut falls behind the backslash of a special byte |
| SerialFraming.LastFrameStands | core/hardware_layers/arduino.cpp:206-273 | of two frames in one buffer the last one is the packet |
| SerialFraming.FrontIsPacketIff | core/hardware_layers/arduino.cpp:206-273 | on any input that leaves a packet reported, the packet is at the front of the buffer exactly when the frame left open behind it agrees with it as far as both go |
| SerialFraming.TrailingBytesAgreeIff | core/hardware_layers/arduino.cpp:216-250 | a frame followed by a start byte and plain bytes is reported, and its payload survives exactly when those bytes agree with it as far as both go |
| SerialFraming.BadEscapeDrops | core/hardware_layers/arduino.cpp:251-270 | an escape before any other byte ends the frame and takes back a packet received before |
| SerialFraming.RestartDrops | core/hardware_layers/arduino.cpp:236-242 | a start byte inside a frame takes back a packet received before, for good unless an end byte follows |
| PlcMemory.RegistersRemember | core/modbus.cpp:536-640 | after any run of single writes every mapped register holds the word last written to it, or its initial word |
| PlcMemory.StoreStored | core/modbus.cpp:550-628 | a single write changes the register addressed and no other, within its variable too |
| PlcMemory.Variable64 | core/modbus.cpp:592-618 | the four word writes of a 64-bit variable assemble the same big-endian value in any order |
| PlcMemory.Variable32 | core/modbus.cpp:569-585 | the two word writes of a 32-bit variable likewise |
| PlcMemory.FetchedIsStored | core/modbus.cpp:305-395 | the two bytes read are the register's word exactly when it is mapped or its two bytes are equal |
| PlcMemory.BlockStepIffSound | core/modbus.cpp:732-806 | a step of a block write is the single write at its address, for every word, exactly in the cases of `Sound` |
| PlcWords.ReplacePart | core/modbus.cpp:573-616 | masking and or-ing a word into a wider one sets that part and leaves every other part |
| PlcWords.LWordParts | core/modbus.cpp:365-387 | the four words read from a 64-bit variable are its big-endian digits |
| PlcSessions.BlockReadSeesWrites | core/modbus.cpp:276-412 | after any session of single-write requests a block read returns for every register the last word written, except a spare one with unequal bytes |
| PlcSessions.InputsAreReturned | core/modbus.cpp:417-476 | a read of input registers returns every mapped input's word and zero for an unmapped one |
| PlcSessions.EveryReplyKeepsHeader | core/modbus.cpp:824-889 | for every request and every path the length field is the reply's length less six, the reply has 9 to 264 bytes, and transaction, protocol and unit bytes are those of the request |
| PlcWire.EveryReply | core/modbus.cpp:125-889 | which requests are refused and with which code, and the nine bytes of a refusal, the twelve of an acknowledgement and the front of a data reply, for any bytes in the buffer |
| PlcWire.BitsAreReturned | core/modbus.cpp:142-271 | code 1 returns for every coil, code 2 for every discrete input, as bit k mod 8 of reply byte 9 + k div 8, whether it is mapped and not zero |
| PlcWire.RegistersAreReturned | core/modbus.cpp:276-412 | the two bytes at register i of a reply are those of its word in the address map, of a spare one its low byte twice |
| PlcWire.RegisterMap | core/modbus.cpp:305-395 | the word behind every address, with the four ranges and the parts of wider variables in numbers |
| PlcWire.NothingChanged | core/modbus.cpp:824-889 | reads and requests refused for their form or a single address leave the image as it was |
| PlcWire.CoilsAreWritten | core/modbus.cpp:645-699 | every coil in reach of a write of coils gets its bit if it is mapped, even when the request is refused for its address, and nothing else changes |
| PlcWire.RegisterIsWritten | core/modbus.cpp:536-640 | a single write sets the word of the register addressed, if anything is mapped there, and no other word |
| PlcWire.BlockStepStores | core/modbus.cpp:732-806 | a step of a block write, register by register: the address it really stores to and the word or count it stores |
| PlcWire.BlockIsWritten | core/modbus.cpp:704-817 | a block of sound addresses leaves in each register the two bytes sent for it |
| PlcWire.NothingBehindTheLast | core/modbus.cpp:704-817 | the words for addresses behind 8191 go nowhere |
| PlcSessions.WriteThenReadCoils | core/modbus.cpp:645-699 | an acknowledged coil write followed by a read of the same range returns the bytes sent exactly when every coil sent as on is mapped |
| PlcSessions.CoilsReadBack | core/modbus.cpp:142-204 | the same on the coil table, padding bits included |
| PlcSessions.OneCoilIsWritten | core/modbus.cpp:482-531 | a single coil write sets that coil to whether the value is not zero, and no other coil |
| PlcSessions.RangeIsRespectedIff | core/modbus.cpp:645-699 | a coil write keeps every coil outside the range asked for exactly when every mapped padding coil already has its padding bit |
| PlcSessions.RefusedChangesNothingIff | core/modbus.cpp:673-694 | a coil write refused for its address leaves the image unchanged exactly when every mapped coil it reaches already has the bit sent |
| PlcSessions.RunsIffIndexedInside | core/modbus.cpp:307-310 | the register reads and single writes the model runs are exactly those that index the 16-bit outputs inside their table at every address their guard lets through |
| PlcSessions.BlockIffSound | core/modbus.cpp:704-817 | a block write of any words is its single writes in order exactly when every address of the block is sound |
| PlcSessions.UnsoundBlock | core/modbus.cpp:746-806 | a block that brings an unsound address a word other than the one there and the count leaves another image than its single writes |
| PlcSessions.WholeVariableWrite | core/modbus.cpp:770-795 | a block write of a whole mapped 64-bit variable changes its first word only |
| PlcModbus.Server.Process | core/modbus.cpp:824-889 | every handler turns the request in the buffer into its reply in the same buffer and makes its change to the image, partial ones on errors included; the rows of `PlcWire` say which bytes and which changes |
| PlcModbus.Server.ReadHoldingRegisters | core/modbus.cpp:276-412 | the reply in the buffer is the header and the bytes of the registers, or an error for a size or an address |
| PlcModbus.Server.WriteMultipleCoils | core/modbus.cpp:645-699 | every coil of the bytes sent that exists is set, the reply an echo or an error |
| VarNames.EveryPartOnce | matiec_src/absyntax_utils/decompose_var_instance_name.cc:59-73 | the calls yield every component once, left to right, and then nothing forever, exactly when no identifier object names two components in a row |
| VarNames.Decomposer.GetNext | matiec_src/absyntax_utils/decompose_var_instance_name.cc:59-73 | call by call the component returned and, beside it, the subscript list of just that component |
| VarNames.WalkToNode | matiec_src/absyntax_utils/decompose_var_instance_name.cc:104-154 | a walk with the cursor on a selection yields its field and its subscripts and remembers the next selection outwards |
| VarNames.WalkToFirst | matiec_src/absyntax_utils/decompose_var_instance_name.cc:104-154 | a walk without a cursor yields the leftmost component and remembers the innermost selection |
| VarNames.OuterListIsNotSeen | matiec_src/absyntax_utils/decompose_var_instance_name.cc:120-131 | of subscript lists nested on one component only the inner one is exposed |

## Left out

- Sockets, serial ports, select, timeouts, sleeps, flushing, error recovery and debug output: the transport is a byte stream from which recv takes pieces of any size.
- ModbusExchange.RemoteRunIsDirectRun: needs a non-broadcast slave; a broadcast call waits for a timeout in the program and is `ConnectionLost` in the model.
- The client call for report-slave-id, raw requests and `modbus_reply_exception`; the server's report-slave-id branch is modelled with its identification string as a parameter of at most 240 bytes.
- `modbus_set_bits_from_byte`, `modbus_get_byte_from_bits` and the float helpers of modbus-data.c: the first two are one turn of loops that are modelled, the last are floating point.
- ModbusCalls.RemoteCall: needs a request that does not escape the address guard and tables whose bit cells are 0 or 1; the other cases are in `RemoteRunIsDirectRun` and `CellsSurviveIffDigits`.
- IecBcd.UintToBcd: numbers from ten to the sixteenth on are excluded, because the shift then reaches the width of the word and C leaves its result undefined.
- IecCalendar.ConvertAndBack: uses mathematical integers; `IecCalendar.ProductFits` gives the days for which the 32-bit product fits.
- IecTimers.TonIsOnDelay, IecTimers.TofIsOffDelay and IecTimers.TpIsPulse: EN is true, PT constant and not negative, the clock normalised and not going back.
- The DINT, LINT, UDINT and ULINT variants of the counters, F_TRIG, SR and RS: the same bodies or one line.
- Forced and retained variables of core/lib/accessor.h, PID, RAMP and the other floating-point blocks, and the string functions.
- StMeaning.OptimizerKeepsMeaning: a program runs line by line on a state of any type; statements over several lines are covered as far as the state carries what has been read of them, and a block with ELSE is one opaque step.
- The optimizer's command line and output file; the input file is taken to end with a line feed, so a failing getline leaves an empty line.
- The packet contents of the Arduino layer (digital and analog values) and its read and write calls.
- PlcModbus.Server.Process: requests that index outside a table (address 1024, a block that starts below the 32-bit range and reaches into it) or follow a null pointer are excluded by `PlcModbus.Runs`, since the program's behaviour on them is undefined; the buffer has at least the 264 bytes of the longest reply (the program's has 1024).
- Pointers of two image slots to one variable: each mapped slot has a variable of its own. `mapUnusedIO`, locking and the server threads are not part of the model.
- Signed 32- and 64-bit variables are taken as their bit patterns.
- The rest of matiec, the DNP3 and Modbus master code, the other hardware layers, the glue generator and the web server.
