# nanoK drivers and utilities, modelled in Dafny

nanoK is a small kernel for AVR micro-controllers. This project models its
interrupt-driven drivers and a few of its utilities, and proves what they do.

- **Two-wire interface (TWI, I2C-compatible).** This is the main part. A single engine is driven by the TWI status codes. It acts as master transmitter or receiver, as slave transmitter or receiver, and answers the general call. It reports each milestone to an application call-back, which may issue new requests from inside the report.
- **SD-card manager.** Double-buffered: writes of any size are gathered into two 512-byte buffers, and a protothread writes each full buffer to the card as the next block. It also reads one block on request.
- **Majority voting.** Three redundant components each stamp their own copy of a data block, exchange copies, and classify agreement as 3-on-3, 2-on-3, 1-on-3, 2-on-2, 1-on-2 or 1-on-1.
- **Generic state machine.** A transition-table machine that takes the first matching transition of the current state.
- **Sleep rendezvous.** The processor sleeps only once every registered client has requested sleep.
- **SPI driver.** Configuration checks, then interrupt-driven master or slave transfers.
- **EEPROM driver.** An interrupt-driven writer, one byte per "ready" interrupt, plus an immediate reader.
- **32-bit tick counter.**

Each driver's static record becomes a Dafny `class` whose methods update its fields in place. Each class sits beside a module of pure functions. Every method is proved to do to the object's view what a function of that module does to a value. The methods follow the C code as written. Where the code is wrong (see "## Findings"), the module also holds an as-written function for the method and a corrected one, and lemmas about both. The properties of the driver are then proved as lemmas about those functions.

Hardware registers are modelled as follows:

- Writes to control and data registers go into an ordered trace.
- Bits the code reads back (a status, a data byte, a busy flag) are parameters of the operation that reads them.
- The call-back is a parameter listing the requests the application makes from inside it.

Files:

| file | models |
|---|---|
| `type_def.dfy` | `u8`/`u16`/`u32`, `OK`/`KO` and 8-, 16- and 32-bit wrap-around |
| `twi_spec.dfy` | the TWI engine state, its requests, the call-back and the status dispatch, as functions |
| `twi.dfy` | the class `TwiEngine`, proved equal to those functions step by step |
| `twi_runs.dfy` | whole transfers, as sequences of interrupts |
| `twi_rules.dfy` | the header's address rules, and where the header's call-back advice and the code part ways |
| `sdcard_mgr.dfy` | the SD-card manager |
| `majority_voting.dfy` | the voting |
| `state_machine.dfy` | the state machine |
| `sleep.dfy` | the sleep rendezvous |
| `spi.dfy` | SPI (`SpiSpec` functions and the `Spi.SpiDriver` class) |
| `eeprom.dfy` | the EEPROM driver |
| `time.dfy` | the tick counter |

Where a header comment and the C code disagree, the model follows the code. Three such cases are proved as lemmas:

- `TwiRuns.IdleIsReported`: status 0xF8 does report IDLE, although the header says it never happens.
- `TwiRules.SlaveTransmitIgnoresSlRx`: in SL_TX_BEGIN the header names `nnk_twi_sl_rx`, but only `nnk_twi_sl_tx` is accepted.
- `TwiRules.MsTxEndRefusesTransfer`: a new master transfer requested from the MS_TX_END report is refused.

## Model

| member | source | states |
|---|---|---|
| TwiSpec.Code | drivers/twi.h:31-45 | the engine state is one of the 13 enumerated values; 0 is IDLE and 12 is ERROR |
| TwiSpec.AddressByte | drivers/twi.c:619-620 | the address byte is the 7-bit address followed by the R/W bit (1 for read) |
| TwiSpec.Init | drivers/twi.c:519-554 | init disables and re-enables the interface, sets IDLE, turns address recognition off (TWAR 0) and keeps the counters |
| TwiSpec.SetOwnAddress | drivers/twi.c:557-561 | the own address goes into bits 7..1 and the general-call bit is kept |
| TwiSpec.OwnAddress | drivers/twi.c:564-567 | the address read back is 7 bits and setting it again changes nothing |
| TwiSpec.GenCall | drivers/twi.c:570-579 | the general-call bit is set exactly for a non-zero argument and the address is kept |
| TwiSpec.StopComm | drivers/twi.c:582-599 | stop always ends in IDLE, changes nothing else, and requests a STOP exactly when the bus is not idle |
| TwiSpec.MsRequest | drivers/twi.c:602-653 | a master request is accepted exactly in IDLE or ERROR with no STOP pending; a refused one changes nothing; an accepted one sets MS_TX_BEGIN or MS_RX_BEGIN, the address byte, the length and the buffer, then requests START |
| TwiSpec.SlTx | drivers/twi.c:656-670 | `sl_tx` is accepted exactly in SL_TX_BEGIN and then changes only the slave buffer; KO changes nothing |
| TwiSpec.SlRx | drivers/twi.c:673-688 | `sl_rx` is accepted exactly in SL_RX_BEGIN or GENCALL_BEGIN and then changes only the slave buffer; KO changes nothing |
| TwiSpec.DefaultReaction | drivers/twi.c:62-71 | the default call-back only calls stop, a well-formed reaction |
| TwiSpec.Apply | drivers/twi.c:582-688 | a request made from the call-back keeps the engine valid, the byte count and the own address |
| TwiSpec.ApplyAll | drivers/twi.c:109-113 | the same for every request the call-back makes, in order |
| TwiSpec.Notify | drivers/twi.c:109-113 | a report sets the reported state and runs the call-back; the byte count and the own address are kept |
| TwiSpec.AckRule | drivers/twi.c:259-265 | the next byte is ACKed exactly when nb_data + 1 < ms_buf_len, and NACKed otherwise |
| TwiSpec.StoreMs | drivers/twi.c:282-284 | a byte received as master advances the 8-bit count, keeps the buffer's length and extent, and changes no slave field |
| TwiSpec.StoreSl | drivers/twi.c:417-419 | the same for a byte received as slave |
| TwiSpec.MasterSendNext | drivers/twi.c:183-200 | the master transmit step keeps the engine valid and the own address |
| TwiSpec.SlaveSendNext | drivers/twi.c:325-333 | the slave transmit step keeps the engine valid |
| TwiSpec.SlaveReceiveBegin | drivers/twi.c:374-412 | being addressed as slave receiver keeps the engine valid |
| TwiSpec.SlaveStop | drivers/twi.c:470-484 | STOP after a slave reception keeps the engine valid |
| TwiSpec.SlaveTransmitEnd | drivers/twi.c:352-370 | the end of a slave transmission keeps the engine valid |
| TwiSpec.SendAddress | drivers/twi.c:170-179 | START keeps the engine valid |
| TwiSpec.MasterByteReceived | drivers/twi.c:279-295 | a master data byte ACKed keeps the engine valid |
| TwiSpec.MasterLastByteReceived | drivers/twi.c:297-310 | the last master data byte keeps the engine valid |
| TwiSpec.MasterHandler | drivers/twi.c:170-310 | every master status handler keeps the engine valid and the own address |
| TwiSpec.SlaveByteReceived | drivers/twi.c:414-428 | a slave data byte ACKed keeps the engine valid |
| TwiSpec.SlaveLastByteReceived | drivers/twi.c:430-440 | the last slave data byte keeps the engine valid |
| TwiSpec.SlaveReceiveHandler | drivers/twi.c:374-484 | every slave receiver handler keeps the engine valid |
| TwiSpec.SlaveTransmitHandler | drivers/twi.c:314-370 | every slave transmitter handler keeps the engine valid |
| TwiSpec.Dispatch | drivers/twi.c:118-146 | every entry of the status table keeps the engine valid and the own address |
| TwiSpec.StatusOf | drivers/twi.c:152 | TW_STATUS is TWSR with its three low bits cleared |
| TwiSpec.Isr | drivers/twi.c:116-512 | one interrupt, of any status, keeps the engine valid and the own address |
| Twi.TwiEngine.constructor | drivers/twi.c:41-56 | the zeroed static record |
| Twi.TwiEngine.Init | drivers/twi.c:519-554 | the object does what TwiSpec.Init says |
| Twi.TwiEngine.SetOwnAddress | drivers/twi.c:557-561 | TWAR becomes TwiSpec.SetOwnAddress of the old one; nothing else changes |
| Twi.TwiEngine.OwnAddress | drivers/twi.c:564-567 | returns TwiSpec.OwnAddress and changes nothing |
| Twi.TwiEngine.GenCall | drivers/twi.c:570-579 | TWAR becomes TwiSpec.GenCall of the old one |
| Twi.TwiEngine.Stop | drivers/twi.c:582-599 | the object does what TwiSpec.StopComm says |
| Twi.TwiEngine.MsRequest | drivers/twi.c:602-653 | answer and object follow TwiSpec.MsRequest |
| Twi.TwiEngine.MsTx | drivers/twi.c:602-626 | the write direction of MsRequest |
| Twi.TwiEngine.MsRx | drivers/twi.c:629-653 | the read direction of MsRequest |
| Twi.TwiEngine.SlTx | drivers/twi.c:656-670 | answer and object follow TwiSpec.SlTx |
| Twi.TwiEngine.SlRx | drivers/twi.c:673-688 | answer and object follow TwiSpec.SlRx |
| Twi.TwiEngine.ApplyCall | drivers/twi.c:582-688 | the object does what TwiSpec.Apply says |
| Twi.TwiEngine.CallBack | drivers/twi.c:62-71 | the object does what TwiSpec.ApplyAll says |
| Twi.TwiEngine.CallBackCall | drivers/twi.c:109-113 | the object does what TwiSpec.Notify says |
| Twi.TwiEngine.SendByte | drivers/twi.c:98-107 | the data register write, with or without ACK, is appended to the trace |
| Twi.TwiEngine.AckOrNack | drivers/twi.c:83-91 | the trace gets TwiSpec.AckRule of the count and the length |
| Twi.TwiEngine.StoreMs | drivers/twi.c:282-284 | the object does what TwiSpec.StoreMs says, an out-of-buffer store included |
| Twi.TwiEngine.StoreSl | drivers/twi.c:417-419 | the object does what TwiSpec.StoreSl says |
| Twi.TwiEngine.MasterHandler | drivers/twi.c:170-310 | the object does what TwiSpec.MasterHandler says |
| Twi.TwiEngine.SlaveReceiveHandler | drivers/twi.c:374-484 | the object does what TwiSpec.SlaveReceiveHandler says |
| Twi.TwiEngine.SlaveTransmitHandler | drivers/twi.c:314-370 | the object does what TwiSpec.SlaveTransmitHandler says |
| Twi.TwiEngine.Isr | drivers/twi.c:116-512 | the object does what TwiSpec.Isr says |
| TwiRules.InitAnswersNobody | drivers/twi.h:48-53 | after init the device answers neither an own address nor the general call |
| TwiRules.OwnAddressRoundTrip | drivers/twi.h:78-90 | get returns the 7-bit address set |
| TwiRules.AddressAndGeneralCallIndependent | drivers/twi.h:78-90 | setting the address keeps the general-call answer, and switching the general call keeps the address |
| TwiRules.AddressZeroIsGeneralCallOnly | drivers/twi.h:78-81 | with own address 0 only the general call is answered, and only when enabled |
| TwiRules.StopIdempotent | drivers/twi.c:582-599 | a second stop on an idle bus changes nothing |
| TwiRules.IsrMasterDataNack | drivers/twi.c:231-240 | a data NACK clears the length and reports MS_TX_END |
| TwiRules.MsTxEndRefusesTransfer | drivers/twi.h:155-159 | a master transfer requested from the MS_TX_END report, which the header offers, is refused |
| TwiRules.StopThenTransferRefused | drivers/twi.c:602-626 | stop, then ms_tx from a report on a busy bus, with the TWSTO bit still read as set (an input of the call, the STOP just requested not yet sent): the state is IDLE, yet the transfer is refused |
| TwiRules.SlaveTransmitIgnoresSlRx | drivers/twi.h:172-175 | in SL_TX_BEGIN `sl_rx`, which the header names, is refused and the old slave buffer is sent |
| TwiRules.GeneralCallRefusesSlTx | drivers/twi.h:126-130 | a general call refuses `sl_tx`; the first byte is acknowledged by the old buffer's length |
| TwiRuns.AckPattern | drivers/twi.c:259-265 | receiving N bytes: ACK each byte but the last, NACK the last |
| TwiRuns.IsrStart | drivers/twi.c:170-179 | START and repeated START clear the count and send the address byte |
| TwiRuns.IsrMasterAck | drivers/twi.c:183-229 | an address or data ACK as master transmitter takes the send-next step |
| TwiRuns.IsrAddressNack | drivers/twi.c:202-210 | an address NACK, in either direction, clears the length and reports NO_SL |
| TwiRuns.IsrReadAddressAck | drivers/twi.c:254-266 | an address ACK as master receiver ACKs or NACKs the first byte by the length |
| TwiRuns.IsrMasterData | drivers/twi.c:279-295 | a master data byte ACKed is stored, then the next one is ACKed or NACKed |
| TwiRuns.MasterByteStored | drivers/twi.c:279-295 | a byte inside the master buffer lands at nb_data and the count goes up by one |
| TwiRuns.IsrMasterLastData | drivers/twi.c:297-310 | the last master data byte is stored, the length cleared and MS_RX_END reported |
| TwiRuns.IsrSlaveAddressed | drivers/twi.c:374-412 | addressed as slave receiver: SL_RX_BEGIN for own address, GENCALL_BEGIN for the general call |
| TwiRuns.IsrSlaveData | drivers/twi.c:414-456 | a slave data byte ACKed is stored, then the next one is ACKed or NACKed |
| TwiRuns.IsrSlaveLastData | drivers/twi.c:430-468 | the last slave byte is stored and SL_RX_END or GENCALL_END reported |
| TwiRuns.IsrSlaveTransmitBegin | drivers/twi.c:314-335 | addressed as slave transmitter: the count is cleared, SL_TX_BEGIN reported, then the next byte sent |
| TwiRuns.IsrSlaveTransmitMore | drivers/twi.c:337-350 | a data ACK as slave transmitter sends the next byte |
| TwiRuns.IsrSlaveTransmitEnd | drivers/twi.c:352-370 | a data NACK or last-data ACK ends the slave transmission |
| TwiRuns.NotifyPassive | drivers/twi.c:109-113 | a report to a call-back that does nothing only sets the state and records the report |
| TwiRuns.MasterSendsRest | drivers/twi.c:212-229 | the remaining data ACKs send the rest of the buffer in order, then MS_TX_END is reported with the length cleared |
| TwiRuns.MasterTransmit | drivers/twi.c:602-626 | a whole master transmission: START, address with W, the bytes in order, MS_TX_END with nb_data == len, the length cleared |
| TwiRuns.TransmitAll | drivers/twi.c:170-229 | START, address ACK and one ACK per byte send the master buffer in order |
| TwiRuns.TransmitHead | drivers/twi.c:183-200 | after the address ACK the first byte goes out, or MS_TX_END is reported for an empty buffer |
| TwiRuns.StartThen | drivers/twi.c:170-179 | START followed by one more interrupt |
| TwiRuns.NoSlaveAnswers | drivers/twi.c:268-277 | an address NACK reports NO_SL with the length cleared, and nothing is sent after it |
| TwiRuns.NoResend | drivers/twi.c:197-226 | with the length cleared an ACK sends no byte, only MS_TX_END again |
| TwiRuns.ArbitrationLostRetries | drivers/twi.c:246-252 | lost arbitration only requests a new START and keeps the pending transfer |
| TwiRuns.MasterReceives | drivers/twi.c:279-295 | ACKed master bytes are stored in order from nb_data on |
| TwiRuns.MasterReceive | drivers/twi.c:629-653 | a whole master reception of N >= 1 bytes: N-1 ACKs and one NACK, bytes stored in order, MS_RX_END with N, the length cleared |
| TwiRuns.ReceiveAllButLast | drivers/twi.c:254-295 | a master reception up to its last byte |
| TwiRuns.ReceiveHead | drivers/twi.c:254-266 | START, then the address with R acknowledged |
| TwiRuns.ReceiveLast | drivers/twi.c:297-310 | the last byte of a master reception |
| TwiRuns.ZeroLengthReceiveOverruns | drivers/twi.c:254-310 | a zero-length master reception NACKs and stores the slave's one byte at ms_buf[0], outside the empty buffer, and reports one byte |
| TwiRuns.SlaveByteStored | drivers/twi.c:414-428 | a byte inside the slave buffer lands at nb_data |
| TwiRuns.SlaveReceives | drivers/twi.c:414-428 | ACKed slave bytes are stored in order from nb_data on |
| TwiRuns.SlaveAddressedForReceive | drivers/twi.c:374-392 | addressed as slave receiver, an `sl_rx` buffer from the call-back is accepted |
| TwiRuns.IsrSlaveAddressedRx | drivers/twi.c:374-392 | the same, as a single interrupt |
| TwiRuns.SlaveLastThenStop | drivers/twi.c:430-440 | the last slave byte, then the call-back stops |
| TwiRuns.IsrSlaveLastStop | drivers/twi.c:430-440 | the same, as a single interrupt: stored, SL_RX_END, bus released, IDLE |
| TwiRuns.NotifyThenStop | drivers/twi.c:582-599 | a report whose call-back only stops on a busy bus: IDLE, release, STOP |
| TwiRuns.SlaveReceive | drivers/twi.c:374-440 | a whole slave reception of N >= 1 bytes: N-1 ACKs, one NACK, bytes in order, SL_RX_END with N, the bus released |
| TwiRuns.SlaveReceiveAllButLast | drivers/twi.c:374-428 | a slave reception up to its last byte |
| TwiRuns.GeneralCallUsesSlRx | drivers/twi.c:394-412 | a general call accepts `sl_rx` in GENCALL_BEGIN |
| TwiRuns.SlaveStopReported | drivers/twi.c:470-484 | STOP reports SL_RX_END after an own-address reception, GENCALL_END otherwise, and restarts a pending master transfer |
| TwiRuns.SlaveAddressedForTransmit | drivers/twi.c:656-670 | addressed as slave transmitter, an `sl_tx` buffer is accepted and its first byte goes out at once |
| TwiRuns.SlaveSendsRest | drivers/twi.c:337-350 | slave data ACKs send the rest of the slave buffer in order |
| TwiRuns.SlaveSendsFiller | drivers/twi.c:337-350 | an exhausted slave buffer sends the filler byte as the last one |
| TwiRuns.SlaveTransmitReleases | drivers/twi.c:352-370 | end of a slave transmission with nothing pending: SL_TX_END, bus released, IDLE |
| TwiRuns.SlaveTransmitRestarts | drivers/twi.c:352-370 | end of a slave transmission with a master transfer pending: a repeated START instead |
| TwiRuns.SlaveTransmit | drivers/twi.c:314-370 | a whole slave transmission of N >= 1 bytes: the bytes in order, SL_TX_END with N, the bus released |
| TwiRuns.IdleIsReported | drivers/twi.c:488-495 | status 0xF8 re-arms the interface and reports IDLE |
| TwiRuns.UnknownStatusIsError | drivers/twi.c:497-511 | status 0x00 and any status above 0xC8 report ERROR and do nothing else |
| TwiRuns.PrescalerIgnored | drivers/twi.c:152 | the prescaler bits of TWSR do not change what an interrupt does |
| SdCardMgr.Swap | externals/sdcardMgr.c:294-315 | swap on the flags: the current buffer flagged, the index reset, the other buffer made current unless it is full; its properties are stated by SwapMarksAndMoves |
| SdCardMgr.SwapMarksAndMoves | externals/sdcardMgr.c:294-315 | swap flags the current buffer, resets the index, and moves to the other buffer with OK exactly when that one is free |
| SdCardMgr.PreCopy | externals/sdcardMgr.c:344-360 | an accepted write targets a buffer that is not full and has room for all its bytes after the index |
| SdCardMgr.PreCopyRefuses | externals/sdcardMgr.c:344-360 | a write is refused exactly when both buffers are full or the second swap fails; a refused write changes nothing |
| SdCardMgr.PostCopy | externals/sdcardMgr.c:362-371 | the index moves past the bytes and a buffer filled to the end is swapped; its properties are stated by PostCopyIndexInBlock |
| SdCardMgr.PostCopyIndexInBlock | externals/sdcardMgr.c:362-371 | after a write the index is inside the block; a buffer filled exactly is flagged |
| SdCardMgr.SlotsAsWritten | externals/sdcardMgr.c:363-366 | as written, byte k of a write is stored at slot index + 1 + k |
| SdCardMgr.Slots | externals/sdcardMgr.c:363-366 | with the corrected copy, byte k of a write is stored at slot index + k |
| SdCardMgr.SlotsAsWrittenOverrun | externals/sdcardMgr.c:363-366 | as written, writes of 255, 255 and 2 bytes are accepted but the last byte goes to slot 512, and slot 0 is never written |
| SdCardMgr.SlotsFillBlock | externals/sdcardMgr.c:344-373 | with the corrected copy, a sequence of writes from SDMGR_init whose lengths add up to at most 512 is accepted write by write, every non-empty write goes to buffer 0, and together they fill slots 0, 1, ... in order without a gap; afterwards the index is the total, or, at exactly 512, buffer 0 is flagged full and buffer 1 is current |
| SdCardMgr.Place | externals/sdcardMgr.c:344-373 | a sequence of SDMGR_write calls: at most one placement per write, each where PreCopy put it |
| SdCardMgr.SlotsAsWrittenShift | externals/sdcardMgr.c:363-366 | as written, the same writes fill slots 1, 2, ... instead: slot 0 is never written, and a block filled exactly stores its last byte at slot 512, past the buffer |
| SdCardMgr.StoreAt | externals/sdcardMgr.c:53-55 | one store through `SDMGR.buffer`, by the record layout (slot 512 of buffer 0 is slot 0 of buffer 1, slot 512 of buffer 1 is the pointer after it); both buffers keep their 512 bytes, and where each byte lands is stated by StoresInside and CopyAsWrittenPlaces |
| SdCardMgr.Stores | externals/sdcardMgr.c:363-366 | the stores of a copy loop, one after the other; both buffers keep their 512 bytes |
| SdCardMgr.StoresInside | externals/sdcardMgr.c:363-366 | with the corrected copy, the bytes land at index .. index+len-1 of the current buffer, and the other buffer and every other byte are unchanged |
| SdCardMgr.CopyAsWrittenPlaces | externals/sdcardMgr.c:363-366 | as written, below slot 512 the bytes land at index+1 .. index+len and slots 0 .. index are kept; when a write reaches slot 512 its last byte lands on slot 0 of buffer 1 from buffer 0, or past buffer 1 over the `buffer` pointer from buffer 1 |
| SdCardMgr.WriteOutcome | externals/sdcardMgr.c:154-175 | a block write clears its buffer flag on success and the card-detected bit on failure, then the communication bit; used by SyncWritesFullBuffers |
| SdCardMgr.Detected | externals/sdcardMgr.c:119-130 | the card detection: the card-detected bit is set when SD_init_card succeeds, skipped when the card is known or the thread resumes at its wait; the status Manager.Detect leaves |
| SdCardMgr.Sync | externals/sdcardMgr.c:112-182 | one scheduling of the thread; its properties are stated by SyncReadsFirst and SyncWritesFullBuffers |
| SdCardMgr.Writes | externals/sdcardMgr.c:153-175 | the block writes of a pass with no read pending, buffer 0 first; stated by SyncWritesFullBuffers |
| SdCardMgr.SyncReadsFirst | externals/sdcardMgr.c:141-151 | a pending read is served alone, and withdrawn exactly when it succeeds |
| SdCardMgr.SyncWritesFullBuffers | externals/sdcardMgr.c:153-175 | each full buffer is written at the next address; its flag is cleared on success, CARD_DETECTED on failure, and the address always advances |
| SdCardMgr.Manager.Init | externals/sdcardMgr.c:189-204 | status and addresses cleared, index 0 of buffer 0, thread restarted |
| SdCardMgr.Manager.IsSdcardDetected | externals/sdcardMgr.c:66-69 | the card-detected bit, and nothing changes |
| SdCardMgr.Manager.IsSdcardCommunicating | externals/sdcardMgr.c:76-79 | the communication bit, and nothing changes |
| SdCardMgr.Manager.SetBlockAddr | externals/sdcardMgr.c:226-229 | only the write address changes |
| SdCardMgr.Manager.GetBlockAddr | externals/sdcardMgr.c:236-239 | returns the write address |
| SdCardMgr.Manager.AreBuffersFull | externals/sdcardMgr.c:247-251 | true exactly when both full flags are set |
| SdCardMgr.Manager.IsBufferFull | externals/sdcardMgr.c:258-285 | the current buffer's full flag |
| SdCardMgr.Manager.SwapBuffers | externals/sdcardMgr.c:294-315 | answer and flags as Swap, buffers untouched |
| SdCardMgr.Manager.Flush | externals/sdcardMgr.c:322-325 | the current buffer is handed to the card whatever it holds |
| SdCardMgr.Manager.FlushIsFini | externals/sdcardMgr.c:332-335 | OK exactly when neither full flag is set |
| SdCardMgr.Manager.MakeRoom | externals/sdcardMgr.c:346-360 | answer and flags as PreCopy |
| SdCardMgr.Manager.Copy | externals/sdcardMgr.c:363-366 | as written: the index moves past the bytes, and the buffers become Stores from slot index + 1, so the bytes land at index+1 .. index+len (CopyAsWrittenPlaces); flags, addresses and card unchanged |
| SdCardMgr.Manager.StoreByte | externals/sdcardMgr.c:365 | one store `SDMGR.buffer[slot] = b`, as StoreAt says; flags, index, addresses and card unchanged |
| SdCardMgr.Manager.Finish | externals/sdcardMgr.c:368-371 | a buffer filled to the end is swapped at once |
| SdCardMgr.Manager.Write | externals/sdcardMgr.c:344-373 | answer and flags follow PreCopy then PostCopy; an accepted write leaves the buffers as Stores from the slot after the index PreCopy chose (the as-written copy), a refused one changes no byte |
| SdCardMgr.Manager.Read | externals/sdcardMgr.c:381-387 | the read address is recorded, READ_BLOCK set and buffer 0 handed out |
| SdCardMgr.Manager.ReadIsFini | externals/sdcardMgr.c:393-396 | OK exactly when READ_BLOCK is clear |
| SdCardMgr.Manager.Detect | externals/sdcardMgr.c:119-130 | the status follows Detected |
| SdCardMgr.Manager.ServeRead | externals/sdcardMgr.c:141-150 | buffer 0 takes the block and the request is withdrawn exactly when the read succeeds |
| SdCardMgr.Manager.WriteBack | externals/sdcardMgr.c:154-175 | the buffer is stored at the write address on success, and the address always advances |
| SdCardMgr.Manager.Run | externals/sdcardMgr.c:112-182 | one pass of the thread, as Sync says, with the card storing what was written |
| SdCardMgr.Manager.WriteFullBuffers | externals/sdcardMgr.c:153-175 | the writes of a pass, as Writes says |
| MajorityVoting.AgreeIsEquivalence | utils/majority_voting.c:55-66 | the agreement check_2 tests is reflexive, symmetric and transitive |
| MajorityVoting.Check2 | utils/majority_voting.c:55-66 | 2_ON_2 exactly when the lengths and the bytes within the length agree, else 1_ON_2 |
| MajorityVoting.CopyData | utils/majority_voting.c:78-83 | self takes the length and the bytes within it of the source and then agrees with it; its timestamp and id are kept |
| MajorityVoting.Check3 | utils/majority_voting.c:68-99 | the three-way check; the new self block keeps its 20-byte array, and its properties are stated by Check3Counts, Check3Overwrites and Check3KeepsMajority |
| MajorityVoting.Check3Counts | utils/majority_voting.c:85-98 | 3_ON_3 exactly when all pairs agree, 1_ON_3 exactly when none do, otherwise exactly one pair agrees |
| MajorityVoting.Check3Overwrites | utils/majority_voting.c:78-83 | self takes other0's vote exactly when other0 and other1 agree, else it is unchanged |
| MajorityVoting.Check3KeepsMajority | utils/majority_voting.c:68-99 | after 3_ON_3 or 2_ON_3 self holds a vote another component shares |
| MajorityVoting.InWindow | utils/majority_voting.c:108-118 | the arrival window, both ends computed on 32 bits; its shape is stated by WindowBounds |
| MajorityVoting.WindowBounds | utils/majority_voting.c:107-118 | the window is the plain interval away from the ends of the 32-bit range, and empty just after or before a wrap |
| MajorityVoting.Decide | utils/majority_voting.c:129-143 | the decision after the wait, for any outcome of it; the self block keeps its 20-byte array |
| MajorityVoting.DecideOutcome | utils/majority_voting.c:129-143 | for any outcome of the wait: time-out gives 1_ON_1; one block missing gives check_2 with the other; both present gives check_3; only check_3 changes the self block |
| MajorityVoting.WaitEntered | utils/majority_voting.c:107-114 | whether the wait loop runs at all: the clock reading before it is past close_time; used by VoteAsWrittenIgnoresData |
| MajorityVoting.DecideAsWritten | utils/majority_voting.c:106-143 | the wait as written and the decision after it; stated by DecideAsWrittenNeverThree |
| MajorityVoting.DecideAsWrittenNeverThree | utils/majority_voting.c:106-143 | as written the wait can only hand the decision (entered and both blocks in the window, entered), so the result is 2_ON_2, 1_ON_2 or 1_ON_1 and check_3 is never reached; a wait not entered gives check_2 with other1 |
| MajorityVoting.WaitAsIntended | utils/majority_voting.c:111-127 | the wait its comments describe, polling while time < close_time; stated by IntendedWaitReachesThreeWay |
| MajorityVoting.IntendedWaitReachesThreeWay | utils/majority_voting.c:111-143 | with that wait, both blocks in the window before close_time reach check_3, and a wait that ends past close_time with a block missing gives 1_ON_1 |
| MajorityVoting.Stamp | utils/majority_voting.c:205-206 | the stamp with the length set to the caller's; the id and the 20-byte array are kept |
| MajorityVoting.StampAsWritten | utils/majority_voting.c:205-206 | as written: the timestamp is now, the first len bytes are the caller's when len <= 20, and the length and id are unchanged |
| MajorityVoting.StampAgreesWithSameVote | utils/majority_voting.c:205-206 | a stamped self block agrees with another exactly when that one carries the caller's length and bytes |
| MajorityVoting.StaleLengthSplitsAgreement | utils/majority_voting.c:205-206 | as written, a first vote on 3 bytes that the other component shares gives 1_ON_2; with the length set it gives 2_ON_2 |
| MajorityVoting.VoteOn | utils/majority_voting.c:202-240 | the vote with the self length set and any outcome of the wait: the other blocks and the majority function are kept |
| MajorityVoting.VoteReturnsMajority | utils/majority_voting.c:217-238 | with the self length set and any outcome of the wait (VoteOn): the caller's buffer and length change only on 2_ON_3, and then hold a vote another component shares; 1_ON_3 hands back the caller's own vote; 3_ON_3 and 2_ON_2 mean another component carries the caller's vote |
| MajorityVoting.VoteAsWritten | utils/majority_voting.c:202-240 | as written: the voter afterwards has the StampAsWritten self block and the caller's buffer and length come back unchanged |
| MajorityVoting.VoteAsWrittenIgnoresData | utils/majority_voting.c:202-240 | as written, with the self length never set (0): the result is 2_ON_2, 1_ON_2 or 1_ON_1, the length stays 0, and with the wait not entered the vote is 2_ON_2 exactly when other1's length is 0, whatever bytes either carries |
| MajorityVoting.Encode | utils/majority_voting.c:209-210 | the block as sent, 26 bytes |
| MajorityVoting.Decode | utils/majority_voting.c:250-251 | the block a 26-byte image stands for, as mjv_callback maps a packet on a block; it keeps a 20-byte array |
| MajorityVoting.DecodeEncode | utils/majority_voting.c:209-210 | decoding the 26-byte image of a block gives the block back |
| MajorityVoting.EncodeDecode | utils/majority_voting.c:209-210 | encoding the block of a 26-byte image gives the image back |
| MajorityVoting.Overlay | utils/majority_voting.c:258-268 | a packet copied over a block gives a block with a 20-byte array; its fields are stated by OverlayFields |
| MajorityVoting.OverlayFields | utils/majority_voting.c:258-268 | a packet copied over a block sets the header fields and the data bytes it covers and keeps the rest |
| MajorityVoting.Voters.Init | utils/majority_voting.c:152-161 | no voter in use, every self id 0xFF, functions recorded |
| MajorityVoting.Voters.NewVoter | utils/majority_voting.c:165-176 | the next index is handed out with its id set while fewer than five are in use; otherwise NULL and no change |
| MajorityVoting.Voters.FunctionSet | utils/majority_voting.c:179-192 | an unknown handle gives VOTER_UNKNOWN with no change; otherwise only the majority function is set |
| MajorityVoting.Voters.Vote | utils/majority_voting.c:195-241 | unknown handle: VOTER_UNKNOWN and no change; otherwise the block stamped without its length is sent to both others, result and voter follow VoteAsWritten, and the caller's buffer and length are unchanged |
| MajorityVoting.Voters.VoteKnown | utils/majority_voting.c:202-240 | the vote on a voter in use, with the two transmissions, as VoteAsWritten says |
| MajorityVoting.Voters.Callback | utils/majority_voting.c:244-269 | an oversized packet or an unknown id is ignored; otherwise other0 or other1 becomes the overlay of the packet |
| StateMachine.Chain | utils/state_machine.c:88-90 | the transitions of a chain, each an index of the table |
| StateMachine.FirstMatch | utils/state_machine.c:88-90 | the transition found carries the event |
| StateMachine.FirstMatchIsFirst | utils/state_machine.c:88-90 | the transition found is the first of the chain with the event, and none is found exactly when no transition of the chain has it |
| StateMachine.Event | utils/state_machine.c:79-108 | STM_event on a configuration; its properties are stated by EventTakesFirstTransition |
| StateMachine.EventTakesFirstTransition | utils/state_machine.c:79-108 | OK exactly when a transition for the event exists; the machine then is in the first one's target, otherwise unchanged; a state without action keeps thread, context and argument |
| StateMachine.Machine.constructor | utils/state_machine.h:24-29 | the zeroed static storage of a struct nnk_stm: context 0, no thread, and state 0 standing for the NULL state pointer |
| StateMachine.Init | utils/state_machine.c:48-68 | KO with no change for a NULL machine or state; otherwise the state, its argument and its action are taken and the context reset |
| StateMachine.PostEvent | utils/state_machine.c:79-108 | KO for a NULL machine; otherwise answer and machine follow Event |
| Sleep.MasksAreDistinctBits | drivers/sleep.c:71-86 | the first 16 clients get single-bit masks, all different |
| Sleep.RegisteredLowBits | drivers/sleep.c:71-86 | after n <= 16 registrations the register mask is the low n bits |
| Sleep.RendezvousIffAllRequested | drivers/sleep.c:90-109 | the current mask equals the register mask exactly when every registered client has requested |
| Sleep.RegisterStep | drivers/sleep.c:71-86 | one more registration keeps the register mask equal to the masks handed out |
| Sleep.UnregisteredBitBlocks | drivers/sleep.c:90-109 | a request with a bit nobody registered never completes the rendezvous |
| Sleep.SleepControl.Init | drivers/sleep.c:57-67 | every field zeroed |
| Sleep.SleepControl.Register | drivers/sleep.c:71-86 | hands out the counter's bit, adds it to the register mask, advances the counter, changes nothing else |
| Sleep.SleepControl.Request | drivers/sleep.c:90-109 | the mask joins the current mask; OK and the sleep count goes up exactly when it then equals the register mask; the register mask is untouched |
| Sleep.SleepControl.Unrequest | drivers/sleep.c:113-117 | exactly the given bits leave the current mask; nothing else changes |
| SpiSpec.Init | drivers/spi.c:155-267 | SPI_init; its properties are stated by InitConfigures, InitSetsFormat, InitSetsClock, ReinitHalvesDivisor, InitRegs and InitRejects |
| SpiSpec.InitConfigures | drivers/spi.c:155-267 | a complete configuration takes the behaviour, resets the transfer state and counters, installs the default call-back and enables the block |
| SpiSpec.InitSetsFormat | drivers/spi.c:182-215 | CPOL for modes 2 and 3, CPHA for modes 1 and 3, DORD for LSB first |
| SpiSpec.InitSetsClock | drivers/spi.c:217-251 | from a cleared SPI2X, the clock bits select exactly the divisor asked for, /2 to /128 |
| SpiSpec.ReinitHalvesDivisor | drivers/spi.c:217-251 | as written SPI2X is only ever set: a configuration for /4, /16, /64 or /128 made while SPI2X is set keeps it, and the bus runs at half the divisor asked for |
| SpiSpec.InitIntended | drivers/spi.c:217-251 | SPI_init writing SPI2X both ways; its properties are stated by IntendedInitSetsClock |
| SpiSpec.IntendedInitSetsClock | drivers/spi.c:217-251 | whatever SPI2X was, the intended configuration selects exactly the divisor asked for, and differs from SPI_init as written only in SPI2X |
| SpiSpec.InitRegs | drivers/spi.c:155-267 | the registers a complete configuration leaves |
| SpiSpec.ModeSelects | drivers/spi.c:182-202 | each mode's bits are CPOL for modes 2 and 3, CPHA for the odd ones, and nothing else |
| SpiSpec.ClockSelects | drivers/spi.c:217-251 | each divisor's bits select that divisor whatever else SPCR holds |
| SpiSpec.InitRejects | drivers/spi.c:155-267 | any unknown argument leaves RESET and the block disabled and keeps the transfer state |
| SpiSpec.CallBackSet | drivers/spi.c:271-275 | the application's call-back replaces the default one; what Spi.SpiDriver.CallBackSet does |
| SpiSpec.MasterRequest | drivers/spi.c:279-299 | SPI_master; stated by RequestsGuarded |
| SpiSpec.SlaveRequest | drivers/spi.c:331-349 | SPI_slave; stated by RequestsGuarded |
| SpiSpec.RequestsGuarded | drivers/spi.c:279-349 | a request is accepted exactly in the idle state of its behaviour; a refused one changes nothing |
| SpiSpec.Notify | drivers/spi.c:142-148 | the report is traced; the default call-back sets fini; stated with each interrupt lemma |
| SpiSpec.FalseTrigger | drivers/spi.c:47-56 | counted on 16 bits, reported as an error, the state set; stated by ResetInterruptCounted and UnexpectedMasterInterrupt |
| SpiSpec.NextLoadAsWritten | drivers/spi.c:59-67 | as written a byte is always loaded, from the transmit buffer exactly while index < tx_len, at place index + 1 between 1 and tx_len |
| SpiSpec.Loading | drivers/spi.c:59-67 | exactly one SPDR write for a load and none for no load; a place at or past tx_len is a read beyond the buffer |
| SpiSpec.LastByteReadsPastBuffer | drivers/spi.c:59-67 | as written, the last byte's interrupt reads tx_buf[tx_len], one past the buffer |
| SpiSpec.NextLoad | drivers/spi.c:58-67 | corrected: a transmit byte is loaded only from a place index + 1 < tx_len, and nothing is loaded exactly when index + 1 has reached both lengths |
| SpiSpec.Store | drivers/spi.c:69-73 | the byte received is stored only within rx_len; the buffer keeps its length and extent |
| SpiSpec.MasterAdvance | drivers/spi.c:69-88 | the rest of a running master step keeps the configuration and the buffers' extent |
| SpiSpec.MasterStepAsWritten | drivers/spi.c:45-89 | the master step as written keeps the configuration and the buffers' extent; its effect is stated by UnexpectedMasterInterrupt, LastByteReadsPastBuffer and TrailingTransferEndsInError |
| SpiSpec.MasterStep | drivers/spi.c:45-89 | the master step with the corrected loads keeps the configuration and the buffers' extent; its effect is stated by MasterTransfer |
| SpiSpec.SlaveUnexpectedAsWritten | drivers/spi.c:93 | the slave guard as written; that it holds in every state is stated by SlaveAlwaysRejectedAsWritten |
| SpiSpec.SlaveUnexpected | drivers/spi.c:92-93 | the slave guard its comment describes; used by SlaveReceives |
| SpiSpec.SlaveStep | drivers/spi.c:91-131 | the slave step with the corrected guard keeps the configuration and the buffers' extent; its effect is stated by SlaveReceives |
| SpiSpec.SlaveStepAsWritten | drivers/spi.c:91-131 | the slave step as written keeps the configuration and the buffers' extent; its effect is stated by SlaveAlwaysRejectedAsWritten |
| SpiSpec.IsrAsWritten | drivers/spi.c:41-139 | the interrupt as written keeps the configuration and the buffers' extent |
| SpiSpec.Isr | drivers/spi.c:41-139 | the interrupt with the corrected loads and guard keeps the configuration and the buffers' extent |
| SpiSpec.SlaveAlwaysRejectedAsWritten | drivers/spi.c:91-101 | as written the guard holds in every state: every slave interrupt is counted, reported as an error and leaves ERROR with nothing received and the index kept, after which SPI_slave is refused |
| SpiSpec.ResetInterruptCounted | drivers/spi.c:133-137 | an interrupt in RESET is counted, reported as an error and leaves IDLE, nothing received |
| SpiSpec.UnexpectedMasterInterrupt | drivers/spi.c:47-56 | a master interrupt when not running is counted and leaves ERROR |
| SpiSpec.TrailingTransferEndsInError | drivers/spi.c:59-88 | as written the last interrupt of a master transfer ends it (IDLE, index 0, MASTER_END, slave deselected) yet loads one more byte; the interrupt of that trailing transfer is a false trigger that leaves ERROR, in which the next SPI_master is refused |
| SpiSpec.SlaveReceives | drivers/spi.c:91-131 | with the corrected guard (SlaveStep), a slave byte that fits is stored, SLAVE_END is reported exactly at the length, and SLAVE_BEGIN exactly at index 0 |
| SpiSpec.MasterTransfer | drivers/spi.c:45-89 | with the corrected loads (MasterStep), a whole master transfer: one interrupt per byte of the longer buffer, the received bytes stored, the transmit bytes sent in order then the filler, nothing loaded after the last, MASTER_END reported, idle again |
| Spi.SpiDriver.Init | drivers/spi.c:155-267 | the object does what SpiSpec.Init says |
| Spi.SpiDriver.CallBackSet | drivers/spi.c:271-275 | the object does what SpiSpec.CallBackSet says |
| Spi.SpiDriver.MasterRequest | drivers/spi.c:279-299 | answer and object follow SpiSpec.MasterRequest |
| Spi.SpiDriver.SlaveRequest | drivers/spi.c:331-349 | answer and object follow SpiSpec.SlaveRequest |
| Spi.SpiDriver.CallBack | drivers/spi.c:142-148 | the object does what SpiSpec.Notify says |
| Spi.SpiDriver.FalseTriggered | drivers/spi.c:47-56 | the object does what SpiSpec.FalseTrigger says |
| Spi.SpiDriver.MasterInterrupt | drivers/spi.c:45-89 | as written: the object does what MasterStepAsWritten says, loading tx_buf[index + 1] while index < tx_len (a read beyond the buffer when that is tx_buf[tx_len]) and 0xFF otherwise |
| Spi.SpiDriver.SlaveInterrupt | drivers/spi.c:91-131 | as written: the object does what SlaveStepAsWritten says, a false trigger leaving ERROR in every state |
| Spi.SpiDriver.Isr | drivers/spi.c:41-139 | as written: the object does what IsrAsWritten says |
| Eeprom.Window | drivers/eeprom.c:92-115 | the len bytes from an address, which wraps at 2^16 |
| Eeprom.Programmed | drivers/eeprom.c:51-72 | the EEPROM once k bytes of a write have been programmed; it keeps 64 KiB |
| Eeprom.ProgrammedStep | drivers/eeprom.c:51-72 | programming one more byte writes it at start + k and changes nothing else |
| Eeprom.ProgrammedReadBack | drivers/eeprom.c:145-154 | the programmed bytes read back from the start address, and other addresses keep their bytes |
| Eeprom.EepromDriver.Init | drivers/eeprom.c:80-88 | no buffer, index 0, interrupt disabled |
| Eeprom.EepromDriver.Read | drivers/eeprom.c:92-115 | KO exactly when busy; otherwise the count bytes from the address, wrapping at 2^16, are copied in order and nothing past them changes |
| Eeprom.EepromDriver.Write | drivers/eeprom.c:119-143 | accepted exactly when not busy and no buffer is recorded (only the first write after init); then the request is recorded, the first byte programmed and the interrupt enabled; KO changes nothing |
| Eeprom.EepromDriver.ReadyIsr | drivers/eeprom.c:51-72 | the index advances; the next byte is programmed at the next address while the index is below the length, else the interrupt is disabled; the buffer stays recorded |
| Eeprom.EepromDriver.ReadyIsrReleasing | drivers/eeprom.c:51-72 | the interrupt as intended: as ReadyIsr, and at the end the buffer is dropped as well as the interrupt disabled |
| Eeprom.SecondWriteRefused | drivers/eeprom.c:51-72 | after nnk_eep_init, a one-byte write is accepted and finishes, and a second write with the EEPROM idle is refused |
| Eeprom.SecondWriteAccepted | drivers/eeprom.c:51-72 | with the intended interrupt, the same second write is accepted |
| Eeprom.EepromDriver.IsFini | drivers/eeprom.c:145-154 | OK exactly when the index reached the length; then every byte of the write is in the EEPROM |
| Time.Ticks | utils/time.c:72-75 | k calls of TIME_incr; stated by TicksClosedForm, TicksCompose, TicksNoWrap and TicksPeriod |
| Time.TicksClosedForm | utils/time.c:72-75 | k ticks add k * incr modulo 2^32 |
| Time.TicksCompose | utils/time.c:72-75 | j ticks then k ticks are j + k ticks |
| Time.TicksNoWrap | utils/time.c:72-75 | without wrap-around the counter grows by exactly k * incr |
| Time.TicksPeriod | utils/time.c:72-75 | 2^32 ticks bring the counter back, whatever the increment |
| Time.Clock.Init | utils/time.c:47-52 | time and increment 0, the adjustment source recorded |
| Time.Clock.SetIncr | utils/time.c:56-59 | only the increment changes |
| Time.Clock.GetIncr | utils/time.c:63-66 | returns the increment set |
| Time.Clock.Incr | utils/time.c:72-75 | time becomes time + incr modulo 2^32 |
| Time.Clock.Get | utils/time.c:79-82 | returns the time and changes nothing |
| Time.Clock.GetPrecise | utils/time.c:86-97 | time plus the adjustment modulo 2^32 when a source is set, else the time; nothing changes |

## Left out

- Register I/O is abstract. Register writes are a trace; bits the code reads back are parameters. This covers TWCR/TWDR/TWSR/TWAR, SPDR/SPCR/SPSR, EEAR/EEDR/EECR, pin and port setup, and the TWI bit-rate setup. The SPI pin directions are not modelled; the slave-select line the SPI master drives is a Select/Deselect event of the trace.
- Interrupt concurrency, `volatile` and preemption are not modelled. Each interrupt and each public call is one atomic step.
- Call-back function pointers are replaced by a parameter. For TWI it lists the requests the application makes from inside the report; for SPI it says whether the default call-back is installed. The call-back's `misc` pointer is not modelled.
- TWI buffers are held by value, as the bytes of the caller's buffer. Aliasing between the caller's memory and the engine's buffers is not modelled. A store past a buffer's end is recorded as an overrun event in the trace, not as a write to other memory.
- `SPI_master_blocking` (drivers/spi.c:302-327) is a busy-wait over the interrupt engine and is not modelled.
- The SPI `overflows` counter, which the code only clears, is not modelled. The effect of an application's own SPI call-back is not modelled: only the reports it receives are recorded.
- The `sleep` instruction is a no-op.
- SpiSpec.MasterRequest: requires a transmit buffer of at least one byte, because SPI_master reads `tx_buf[0]` whatever `tx_len` is.
- The EEPROM is an abstract 64 KiB memory, and programming a byte takes effect at once. The EEPE busy bit is an input of each request.
- The wait loop of `mjv_vote_check` (utils/majority_voting.c:114-127) is not modelled as a loop. As written (DecideAsWritten) it is summed up by whether it is entered, the other blocks not changing while it runs: not entered, both flags stay 0; entered with both blocks in the window, it breaks while `close_time < time` still holds; entered otherwise, it can only end once the 32-bit clock has wrapped back to `close_time` or below. Packets that arrive while it waits (mjv_callback from an interrupt) are not interleaved. The corrected decision (Decide) takes the wait's outcome as two inputs, and WaitAsIntended gives them for the wait the comments describe.
- MajorityVoting.Voters.Vote: the copy of the caller's `*data_len` bytes (L, up to 255) into the 20-byte self data array (utils/majority_voting.c:206) writes past the array when L exceeds 20; the model stores only the first 20 bytes (StampAsWritten), because memory outside the voter's blocks is not modelled. With a 26-byte `struct voter_block` (data at offset 6) and an 80-byte `struct voter`, the copy overwrites part of other0 for L = 21-46; all of other0 and part of other1 for L = 47-72; also the `maj` pointer for L = 73-74; and from L = 75 the next voter's record, or, for the last voter, `voters.nb` and then the `tx0`, `tx1` and `time` pointers, the first two of which lines 209-210 call straight after. The copy back of lines 226-227 is unreachable as written (DecideAsWrittenNeverThree) and appears only in the corrected VoteOn.
- MajorityVoting.Check2: `memcmp` over a length above 20 reads past the data array; the comparison, like the copy of check_3 (CopyData), is cut at 20 bytes.
- MajorityVoting.Voters.Callback: requires a packet of more than 4 bytes, because the code reads the id byte whatever the packet's length.
- The transmit and time function pointers of `mjv_init` are kept as identifiers; transmissions form a log and clock readings are inputs.
- The voter handle is the pointer returned by `mjv_voter`, modelled as the voter's index. The first voter's handle is therefore 0, the NULL pointer, as in the code.
- The SD card driver (`SD_init_card`, `SD_read_block`, `SD_write_block`) is not part of this model. Each call's outcome is an input. A failed read leaves buffer 0 unchanged.
- pt.h is not part of this model. The thread is taken to resume at its wait and to start over after `SDMGR_init`.
- SdCardMgr.Manager.Write: a byte stored past buffer 1 lands on the `buffer` pointer that follows it in the record; the model logs it in `spill` and keeps the pointer intact, so what later writes through the corrupted pointer do is not modelled.
- The numbering of the state machine's table is a modelling choice. Chains must point further down the table, which every finite acyclic chain can satisfy; a cyclic chain, on which `STM_event` would loop for ever, is excluded by that requirement.
- The protothread scheduling of `STM_run` is not modelled.
- StateMachine.Machine.constructor: the NULL state pointer of a machine never initialised is state 0, the table's first state, so a PostEvent before STM_init walks state 0's chain where the C code dereferences NULL.
- The `rs.c`, `timer0-2.c`, `w5100.c`, `adxl345.c` and `sdcard.c` files are not part of this model.

## Findings

| source | as written | input that shows it | evidently intended | confidence | as-written member | corrected member |
|---|---|---|---|---|---|---|
| externals/sdcardMgr.c:363-366 | the copy loop increments the index before each store, so bytes land at index+1 .. index+len | after SDMGR_init, writes of 255, 255 and 2 bytes: all accepted, the last byte stored at buffer[512], and buffer[0] never written | bytes stored at index .. index+len-1, so writes fill the block from slot 0 without a gap | not executed | SdCardMgr.SlotsAsWrittenShift | SdCardMgr.SlotsFillBlock |
| externals/sdcardMgr.c:365 | a write that ends exactly at the end of the current buffer stores its last byte at slot 512 | a write of 2 bytes at index 510 of buffer 1: the second byte overwrites the `buffer` pointer that follows buffer 1 in the record (from buffer 0 it overwrites buffer 1's first byte) | the bytes stay in the current buffer and nothing else changes | not executed | SdCardMgr.CopyAsWrittenPlaces | SdCardMgr.StoresInside |
| utils/majority_voting.c:205-206 | mjv_vote stamps the block and copies the data but never sets `self.data_len` from the caller's length | first vote on 3 bytes, [1, 2, 3], while the other component sent the same 3 bytes: lengths 0 and 3 differ, the vote is 1_ON_2 | self's length set to the caller's, giving 2_ON_2 | not executed | MajorityVoting.StaleLengthSplitsAgreement | MajorityVoting.StampAgreesWithSameVote |
| utils/majority_voting.c:114 | the wait loop runs while `close_time < time`, so it is skipped while the window is open and, once entered, breaks only past `close_time` | a vote whose two other blocks both arrived in the window, with the clock read within three ticks of the stamp: the loop is skipped, both flags stay 0, and check_2 with other1 decides; check_3 is never reached and the copy back of 2_ON_3 is dead | poll while `time < close_time`, so that two blocks in the window reach check_3 | not executed | MajorityVoting.DecideAsWrittenNeverThree | MajorityVoting.IntendedWaitReachesThreeWay |
| drivers/spi.c:217-251 | the clock switch only ever sets SPI2X in SPSR and never clears it | SPI_init with SPI_DIV_2, then SPI_init with SPI_DIV_4: SPI2X stays set and the clock is divided by 2, not 4 | SPI2X cleared for /4, /16, /64 and /128, so every configuration gets the divisor asked for | not executed | SpiSpec.ReinitHalvesDivisor | SpiSpec.IntendedInitSetsClock |
| drivers/eeprom.c:51-72 | the EE_READY interrupt disables itself at the end of a write but never resets `eep.data` to NULL | nnk_eep_init, a one-byte write, its interrupt, then a second write with the EEPROM idle: KO, and every later write is KO until nnk_eep_init | `eep.data` reset to NULL at the end, so the next write is accepted once the previous one is done | not executed | Eeprom.SecondWriteRefused | Eeprom.SecondWriteAccepted |
| drivers/spi.c:93 | the slave guard `(state != IDLE) \|\| (state != RUNNING)` is true in every state | any slave interrupt, even one during a slave transfer: it is counted as a false trigger and the state becomes ERROR | an interrupt is unexpected unless the slave is idle or receiving | not executed | SpiSpec.SlaveAlwaysRejectedAsWritten | SpiSpec.SlaveReceives |
| drivers/spi.c:59-67 | the master loads `tx_buf[index + 1]` while `index < tx_len` | a master transfer of one byte: the interrupt reads tx_buf[1], one past the buffer | no load once the transmit bytes are sent, only the filler while bytes remain to be received | not executed | SpiSpec.LastByteReadsPastBuffer | SpiSpec.MasterTransfer |
| drivers/spi.c:59-88 | the last interrupt of a master transfer ends it and still loads a byte into SPDR, which starts one more transfer | a master transfer of one byte: its interrupt ends it and loads tx_buf[1]; that trailing transfer's interrupt finds the driver IDLE, counts a false trigger and leaves ERROR, so the next SPI_master is refused | nothing loaded at the last interrupt, the driver left IDLE | not executed | SpiSpec.TrailingTransferEndsInError | SpiSpec.MasterTransfer |
