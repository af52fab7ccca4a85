# Programmer firmware: protocol engines and what the other side makes of them

This project models the byte-level engines of the programmer firmware and proves what their output does to the
machine at the other end of the wire. Every engine is written in the form the source has (fields, loops, 8- and 16-bit
variables, retry and polling loops), and is proved against a specification; next to it stands a model of its partner:

- `AvrTarget`: an AVR in serial programming mode, with the extended address register, page buffers and self-timed
  writes. `IspEngine` is the AVRISP engine (V2Protocol.c, ISPProtocol.c, ISPTarget.c), `IspLink` the run-level theory of
  its lazily loaded address byte, `IspWait` that of its waits for the device, `UsbaspIsp` and `UsbaspFlash` are USBasp's counterparts (isp.c and the flash part of
  main.c).
- `PdiTarget` and `TpiTarget`: the decoders, pointer and repeat registers and NVM controllers behind the two
  debug wires. `XmegaNvm` and `TinyNvm` are the engines that compile memory operations into instructions for them.
- A USB host: `BulkIn` (packets of the AVRISP endpoint), `UsbPipe`, `UsbRuns` and `UsbOwner` (V-USB's control pipe under
  any order of SETUP, OUT, IN and polls), with the USBasp application in `UsbaspApp` and the driver as it executes in
  `UsbDriver`.
- An I2C bus monitor that reads the waveform back: `I2cWave`, with the bit-banged master in `I2cMaster`, the requests of
  the application in `UsbaspI2c`, and the Arduino programmer's chunked transfers in `ArduinoI2c`.
- `SoftSpi` (a shift register shared with an interrupt routine, and a plain bit loop, both refining one byte exchange),
  `Microwire`, and `Sfdp` (the fixture builder, with a reader of the published encoding).
- `Timeout` is the tick counter that an interrupt counts down at any moment; it makes every polling loop's termination
  argument explicit, and a plan of its coming losses says when a wait cannot time out. `Bytes`, `BitOrder` and `Pages`
  hold arithmetic.

Devices appear as functions from histories or clock numbers to answers, so every statement is for all devices of the
kind described.

## Where the code does less than one might expect

Each of these is proved, with the exact condition under which the code does meet the expectation.

- A page commit goes to the segment in the register: it reaches the page of the start address exactly when the last
  byte that went out is still in that segment, or, for an empty block, when the register is already right
  (`IspLink.CommitReaches`). Without the host's bit 31 a changed upper address byte is lost (`IspLink.LoadAddressKeeps`).
- A mode with the commit bit and the value-poll bit meant for single words waits for the page by a value poll even when
  it has nothing to poll; no other mode polls undecidably. With paged writes, or when the command stops early, the poll
  is decidable exactly when some byte differs from the poll value. After completed word writes the polling address has
  been reset to 0, so it takes a differing byte at low address 0, with the parity of the last differing byte
  (`IspWait.DecidableExactly`; before the call, `IspWait.AlwaysDecidable`): away from address 0 no data will do
  (`IspWait.MismatchedWords`, with an input in `IspWait.MismatchedInput`).
- The status of a program command is that of its last wait. It means that all bytes are done exactly when writes are
  paged, nothing is committed, or no byte is waited for in a way that can fail, which depends on the mode, the byte and
  its address (`IspWait.OkMeansComplete`, `IspWait.WordFails`). Otherwise the wait for the page can cover up a failed
  byte: `IspEngine.FailureReportedAsOk` is an execution for every such command.
- An EEPROM block that ends with the last address, 0xFFFF, is stored as it should be but carries into bits 16 to 23
  without scheduling a load, so that the invariant of the address register is lost (`IspLink.EepromEnds`).
- Synchronisation bytes that themselves load the extended address register leave the engine out of step when the
  device's answer to them, which is their echo, is accepted (`IspEngine.IspEngine.EnterISPMode`).
- `XMEGANVM_ReadMemory` never succeeds for more than 256 bytes, and stores one byte when asked for none
  (`XmegaNvm.XmegaEngine.ReadMemory`).
- The loop of `XMEGANVM_EraseMemory` that tags an EEPROM page counts in one byte and ends exactly for page sizes below
  256 (`XmegaNvm.TaggingEnds`); with a page size of 0 the device takes the next instructions for data, nothing is erased
  and the function never succeeds (`XmegaNvm.XmegaEngine.EraseMemory`).
- Enabling programming with a retry resets the device but not the cached address byte; the two then agree only if the
  cache holds 0 (`UsbaspIsp.Isp.EnterProgrammingMode`, `UsbaspIsp.Reaches`).
- Without SETLONGADDRESS an address from 0x8000 on is sign-extended and misses its cell
  (`UsbaspFlash.ShortAddressReaches`; `int` is 16 bits wide on this controller).
- The one-byte page counter serves page sizes above 256 only when its period divides them or the transfer fits one page
  (`UsbaspFlash.PageSizes`, for blocks of any sizes). A packet longer than announced spills into the EEPROM
  (`UsbaspFlash.Spill`).
- Reads of 0 or 65535 bytes never reach the bus, so that chip select stays low (`UsbRuns.ReadEnds`); a contradictory
  request with these lengths is not stalled (`UsbRuns.ContradictoryStalls`).
- A write request that declares an IN transfer clocks out the payload of any OUT packet that follows. Exactly then does
  a request whose direction contradicts its function have an effect on the bus; with a length of 0 an OUT packet only
  closes the transfer (`UsbRuns.ContradictoryHarmless` and `ContradictoryEmpty`, with an input in `ContradictoryClocks`).
- A write request of no byte is not closed and gets no status unless the host sends an OUT packet after all
  (`UsbRuns.EmptyWrite`, `UsbRuns.EmptyWriteEnds`).
- `TINYNVM_WriteMemory` pads an odd length to the next word in 16 bits: 65535 bytes become none, and it reports success
  (`TinyNvm.BlockHolds`).
- An OUT packet during a read takes the packet on offer with it. Over a whole run exactly as many packets are lost as
  OUT packets arrive while one is on offer (`UsbRuns.Losses`).
- An SPI write never returns to the idle state (`UsbaspApp.ExtraPacket`).
- After an acknowledged byte a STOP is seen only if the device lets go of SDA (`I2cWave.ConditionSeen`); the Arduino
  program sends such a STOP when the host refuses a chunk (`ArduinoI2c.Arduino.CmdRead`). Its reads of 32768 bytes or
  more transfer nothing, and its writes are complete only below 256 bytes (`ArduinoI2c.WriteComplete`); when the host
  stops sending, stale buffer contents go out before the STOP (`ArduinoI2c.WriteAbandoned`).
- A software SPI byte that starts with the clock still high, after a timeout in mid-byte, costs the device its first bit
  (`SoftSpi.Port.TransferSoftSPIByte`).

## Model

| member | source | states |
|---|---|---|
| IspLink.PartsNext | firmware/AVRISP-MKII/Lib/ISP/ISPProtocol.c:243-249 | Incrementing the 32-bit CurrentAddress carries through flag, extended and 16-bit pieces, wrap-around included |
| IspLink.StepAlong | firmware/AVRISP-MKII/Lib/ISP/ISPProtocol.c:193-249 | While a block fits, byte number n goes to start plus n on the device, and the deferred-load invariant survives the step |
| IspLink.SkipAlong | firmware/AVRISP-MKII/Lib/ISP/ISPProtocol.c:188-250 | The invariant (load pending, or register equal to address bits 16 to 23) holds after any number of bytes, with the address where a flat counter would be |
| IspLink.WriteAlong | firmware/AVRISP-MKII/Lib/ISP/ISPProtocol.c:188-250 | A block is stored byte for byte as by a device with one flat address |
| IspLink.EepromEnds | firmware/AVRISP-MKII/Lib/ISP/ISPProtocol.c:243-249 | An EEPROM block up to address 0xFFFF is stored at its place; the invariant holds afterwards, and the next flash byte goes where it should, if and only if the block does not end there |
| IspLink.PartAlong | firmware/AVRISP-MKII/Lib/ISP/ISPProtocol.c:188-250 | A block that gets as far as the byte whose wait fails is stored as by the flat device, and the address stays at that byte |
| IspLink.ReadAlong | firmware/AVRISP-MKII/Lib/ISP/ISPProtocol.c:305-342 | A read answers with the bytes a device with one flat address holds |
| IspLink.CommitReaches | firmware/AVRISP-MKII/Lib/ISP/ISPProtocol.c:252-274 | The page commit, sent before the deferred load, reaches the start page if and only if the last byte that went out, the one of a failed wait included, is in the segment the register holds |
| IspLink.CommitRestores | firmware/AVRISP-MKII/Lib/ISP/ISPProtocol.c:271-273 | A page commit restores a broken invariant exactly when the address has come to a 64K-word boundary; an EEPROM commit changes neither address nor register |
| IspLink.LoadAddressKeeps | firmware/AVRISP-MKII/Lib/V2Protocol.c:306-320 | LOAD_ADDRESS keeps the invariant if and only if the host sets bit 31, a load is pending, or the upper byte is the one in the register |
| IspLink.ProgramRefines | firmware/AVRISP-MKII/Lib/ISP/ISPProtocol.c:186-274 | A program command, complete or stopped by a failed wait, leaves the memories and the address as the flat device would, commit included |
| IspLink.Refines | firmware/AVRISP-MKII/Lib/ISP/ISPProtocol.c:186-342 | Every command, complete or stopped early, preserves the invariant, and does and answers what the flat device does |
| IspLink.RunRefines | firmware/AVRISP-MKII/Lib/ISP/ISPProtocol.c:186-342 | Over every run of address, program (failed ones included) and read commands the device behind the lazy register ends as the flat one |
| IspLink.RunAnswers | firmware/AVRISP-MKII/Lib/ISP/ISPProtocol.c:286-356 | After every run a read returns what the flat device holds |
| IspLink.PageRoundTrip | firmware/AVRISP-MKII/Lib/ISP/ISPProtocol.c:186-342 | Load address, program and commit one erased page, load address, read: the data comes back and no other cell has changed |
| IspEngine.IspEngine.constructor | firmware/AVRISP-MKII/Lib/V2Protocol.c:40-43 | The globals start at address 0 with nothing to load, on a device whose register is 0 |
| IspEngine.IspEngine.EnterISPMode | firmware/AVRISP-MKII/Lib/ISP/ISPProtocol.c:43-103 | For any host bytes and poll index: the delays, reset pulses and bytes follow the given course of events; the device answers with the echo of the bytes, so that OK comes with the first attempt exactly when the polled echo is the expected value; OK with the enabling bytes leaves the device enabled; the invariant holds afterwards if and only if a load is pending, the bytes do not load the register with another value, no attempt was made, or the last polled byte was not accepted; giving up early means that the time was out |
| IspEngine.CourseShape | firmware/AVRISP-MKII/Lib/ISP/ISPProtocol.c:71-98 | After any number of failed attempts the reset line has been driven active first and then released and driven again once per attempt, and every attempt has sent four bytes |
| IspEngine.CourseTime | firmware/AVRISP-MKII/Lib/ISP/ISPProtocol.c:67-96 | The time spent waiting is the execution delay, one settling time, and four byte delays and two settling times for each failed attempt |
| IspEngine.IspEngine.Synchronise | firmware/AVRISP-MKII/Lib/ISP/ISPProtocol.c:80-84 | The four bytes reach the device in order as one instruction, and their echo comes back, but for the last byte of a read |
| IspEngine.IspEngine.PulseReset | firmware/AVRISP-MKII/Lib/ISP/ISPProtocol.c:94-97 | The target is released, reset again, and given its time after each |
| IspEngine.IspEngine.LoadExtendedAddress | firmware/AVRISP-MKII/Lib/ISP/ISPTarget.c:308-314 | The instruction sets the device's register to address bits 16 to 23 and changes nothing else |
| IspEngine.IspEngine.LoadAddress | firmware/AVRISP-MKII/Lib/V2Protocol.c:306-320 | The handler's globals follow the model of the LOAD_ADDRESS command |
| IspEngine.IspEngine.WaitWhileTargetBusy | firmware/AVRISP-MKII/Lib/ISP/ISPTarget.c:291-302 | Terminates under any timer interrupts; OK means ticks are left and the device is ready, and nothing was written |
| IspEngine.IspEngine.DelayMS | firmware/AVRISP-MKII/Lib/ISP/ISPProtocol.c:524-528 | Lasts as many milliseconds as asked for unless the timeout runs out, and writes nothing |
| IspEngine.IspEngine.WaitForProgComplete | firmware/AVRISP-MKII/Lib/ISP/ISPTarget.c:328-366 | Terminates with the counter re-armed; how it waits follows the mode, a delay always succeeds, an OK from asking means that the device is ready; a poll during which the time runs out fails, one that the device answers at once while it stands still succeeds |
| IspEngine.IspEngine.WaitWhileValue | firmware/AVRISP-MKII/Lib/ISP/ISPTarget.c:343-353 | The polling loop terminates under any timer interrupts; OK means ticks are left and the device is ready, if the poll value is what a busy device answers |
| IspEngine.IspEngine.ChoosePoll | firmware/AVRISP-MKII/Lib/ISP/ISPProtocol.c:210-219 | The first byte that differs from the poll value is kept with its address and high/low opcode; address 0 counts as none |
| IspEngine.IspEngine.WriteByte | firmware/AVRISP-MKII/Lib/ISP/ISPProtocol.c:190-238 | The byte is stored at its place; its wait is the one the mode, the byte and its address call for, with the poll the bytes so far give; it does not reach an idle device early |
| IspEngine.IspEngine.WriteBlock | firmware/AVRISP-MKII/Lib/ISP/ISPProtocol.c:188-250 | The loop stops at the first byte whose wait fails, with exactly the bytes so far stored, one wait for each, and the poll the command has reached |
| IspEngine.IspEngine.CommitPage | firmware/AVRISP-MKII/Lib/ISP/ISPProtocol.c:253-258 | The buffered page is programmed at the start address in the segment of the register; a boundary schedules the load |
| IspEngine.IspEngine.ProgramMemory | firmware/AVRISP-MKII/Lib/ISP/ISPProtocol.c:137-279 | Oversized requests are refused untouched; otherwise memory and address follow the model, waits and status are as reported by the model, all value polls are decidable if and only if the mode is not mismatched or a byte is nameable, and no write or commit reaches a busy device while the waits before succeed by asking it (and paged writes meet a page buffer) |
| IspEngine.FailureReportedAsOk | firmware/AVRISP-MKII/Lib/ISP/ISPProtocol.c:228-269 | For every command outside that condition, flash or EEPROM, there is a device and a run of the timer on which the engine stops early and reports OK |
| IspEngine.ReadyAsked | firmware/AVRISP-MKII/Lib/ISP/ISPProtocol.c:222-269 | A command that waits by ready/busy has asked the device throughout exactly when all its waits succeeded |
| IspWait.ByModeByte | firmware/AVRISP-MKII/Lib/ISP/ISPTarget.c:336-361 | The method of each of the 256 mode bytes |
| IspWait.DelayedInstead | firmware/AVRISP-MKII/Lib/ISP/ISPProtocol.c:225-226 | A value poll without an address is replaced by a timed delay, for words and for the page |
| IspWait.WordPoll | firmware/AVRISP-MKII/Lib/ISP/ISPProtocol.c:210-237 | In word mode a byte is polled for at its own address if it differs from the poll value, and otherwise not at all |
| IspWait.WordFails | firmware/AVRISP-MKII/Lib/ISP/ISPProtocol.c:222-234 | The wait for a byte can fail if and only if the mode is ready/busy for words, or another polling mode and the byte differs from the poll value at an address that is not 0 |
| IspWait.PagedPoll | firmware/AVRISP-MKII/Lib/ISP/ISPProtocol.c:210-219 | With paged writes the poll names a byte that differs from the poll value as soon as there is one |
| IspWait.WordCommand | firmware/AVRISP-MKII/Lib/ISP/ISPProtocol.c:210-237 | After word writes the polling address is 0, with the read instruction for the side of the last differing byte |
| IspWait.OkMeansComplete | firmware/AVRISP-MKII/Lib/ISP/ISPProtocol.c:222-269 | OK implies that all bytes are done, for every outcome, if and only if writes are paged, nothing is committed or no byte's wait can fail |
| IspWait.DecidableExactly | firmware/AVRISP-MKII/Lib/ISP/ISPProtocol.c:210-269 | All value polls of a command name a byte that differs from the poll value if and only if the mode is not mismatched, or some byte differs and writes are paged, the command stops early, or that byte is at low address 0 on the side of the last differing byte |
| IspWait.AlwaysDecidable | firmware/AVRISP-MKII/Lib/ISP/ISPProtocol.c:210-269 | Whatever the outcome, a command polls decidably if and only if the mode is not mismatched, or some byte differs and writes are paged or that byte is at low address 0 on the side of the last differing byte |
| IspWait.MismatchedWords | firmware/AVRISP-MKII/Lib/ISP/ISPProtocol.c:236-269 | Completed word writes in a mismatched mode away from address 0 poll undecidably, whatever the data |
| IspWait.MismatchedInput | firmware/AVRISP-MKII/Lib/ISP/ISPProtocol.c:236-269 | Mode 0x84 and one byte 0x00 at address 0x100 with poll value 0xFF: its page wait polls address 0 |
| IspEngine.IspEngine.ReadData | firmware/AVRISP-MKII/Lib/ISP/ISPProtocol.c:304-342 | The loop delivers the bytes of the addressed cells in order, moving the address as the model says |
| IspEngine.IspEngine.ReadMemory | firmware/AVRISP-MKII/Lib/ISP/ISPProtocol.c:286-356 | The reply packets carry header, the memory bytes and the status, all full but the last |
| IspEngine.IspEngine.ProgramAndReadBack | firmware/AVRISP-MKII/Lib/ISP/ISPProtocol.c:137-356 | A host that programs an erased page and reads it back gets the data in its reply packets whenever the engine reports OK after asking the device, and no other cell has changed |
| IspEngine.IspEngine.SPIMulti | firmware/AVRISP-MKII/Lib/ISP/ISPProtocol.c:452-516 | The device sees the host's bytes cut or zero-padded to RxStartAddr plus RxBytes; the reply carries exactly the answers from RxStartAddr on |
| BulkIn.DataEndpoint.WriteData | firmware/AVRISP-MKII/Lib/ISP/ISPProtocol.c:318-325 | A byte is added to the transfer, and a full bank becomes a packet |
| BulkIn.DataEndpoint.Close | firmware/AVRISP-MKII/Lib/ISP/ISPProtocol.c:344-355 | The packets are full but for the last, which is short even when the data ends on a packet boundary |
| BulkIn.HostReadsPayload | firmware/AVRISP-MKII/Lib/ISP/ISPProtocol.c:344-355 | A host that stops at the first short packet gets exactly the payload, whatever is sent afterwards |
| AvrTarget.Instruction | firmware/AVRISP-MKII/Lib/ISP/ISPProtocol.c:200-203 | Four bytes from an instruction boundary execute one instruction |
| AvrTarget.ErasedBlock | firmware/AVRISP-MKII/Lib/ISP/ISPProtocol.c:200-258 | Loading a block within an erased page and committing it programs exactly its cells |
| Timeout.Timer.Elapse | firmware/AVRISP-MKII/Lib/V2Protocol.c:46-53 | Between two polls the counter only falls, and if it stands still the next tick is nearer |
| PdiTarget.Decodes | firmware/AVRISP-MKII/Lib/XPROG/XPROGTarget.h:68-75 | Every PDI instruction is understood by the device as that instruction |
| PdiTarget.Unambiguous | firmware/AVRISP-MKII/Lib/XPROG/XPROGTarget.h:68-75 | No two PDI instructions share an encoding |
| PdiTarget.AddressValue | firmware/AVRISP-MKII/Lib/XPROG/XMEGANVM.c:45-52 | The four address bytes, low byte first, make up the 32-bit address |
| XmegaNvm.XmegaEngine.WaitWhileNVMControllerBusy | firmware/AVRISP-MKII/Lib/XPROG/XMEGANVM.c:97-119 | Terminates; true means that the controller is idle, false that the time is out, and a counter at rest for longer than the controller is busy gives true. Only the pointer register has changed, nothing is written and no memory accessed |
| XmegaNvm.XmegaEngine.Command | firmware/AVRISP-MKII/Lib/XPROG/XMEGANVM.c:230-237 | The controller has the command, given to it only when idle; false means that the time is out, and with the counter at rest it does not happen |
| XmegaNvm.XmegaEngine.WriteByteMemory | firmware/AVRISP-MKII/Lib/XPROG/XMEGANVM.c:273-292 | True means that exactly the addressed byte has been written; false that nothing has and the time is out |
| XmegaNvm.XmegaEngine.EraseBuffer | firmware/AVRISP-MKII/Lib/XPROG/XMEGANVM.c:314-329 | The page buffer is empty, the memory untouched; false means that the time is out, and with the counter at rest it does not happen |
| XmegaNvm.XmegaEngine.FillBuffer | firmware/AVRISP-MKII/Lib/XPROG/XMEGANVM.c:331-354 | For 1 to 256 bytes the buffer holds the data, every access through the pointer going to the requested addresses; the same about false |
| XmegaNvm.XmegaEngine.CommitBuffer | firmware/AVRISP-MKII/Lib/XPROG/XMEGANVM.c:356-371 | The page of the address is programmed from the buffer; the same about false |
| XmegaNvm.XmegaEngine.WritePageMemory | firmware/AVRISP-MKII/Lib/XPROG/XMEGANVM.c:306-374 | True means erase, load and write took effect as the page mode asks, never early, and no access used the pointer value left by the busy wait; false leaves the cells alone and means that the time is out. With the counter at rest for as long as three waits can take, the answer is true |
| XmegaNvm.PageHolds | firmware/AVRISP-MKII/Lib/XPROG/XMEGANVM.c:306-374 | After a successful write an erased flash page, or any EEPROM page, holds the buffer and nothing else has changed |
| XmegaNvm.XmegaEngine.ReadMemory | firmware/AVRISP-MKII/Lib/XPROG/XMEGANVM.c:226-263 | True means exactly the bytes of the addressed memory, and at most 256 of them; a request for none reads one. False means that the time is out; up to 256 bytes and a counter at rest give true |
| XmegaNvm.XmegaEngine.WaitWhileNVMBusBusy | firmware/AVRISP-MKII/Lib/XPROG/XMEGANVM.c:72-90 | Terminates, and neither writes nor loses the instruction stream; true means that the bus is on, so that a device which turns it off while busy has finished; the same about false |
| XmegaNvm.XmegaEngine.EraseMemory | firmware/AVRISP-MKII/Lib/XPROG/XMEGANVM.c:383-465 | True means that the device, the page of the address, or the tagged bytes of every EEPROM page are erased, or that the order to erase the section of the address was given, each command having found the controller idle and the bus being on again; false means that the time is out, and with the counter at rest happens only for an EEPROM page size of 0, which erases nothing |
| XmegaNvm.XmegaEngine.EraseEepromEmpty | firmware/AVRISP-MKII/Lib/XPROG/XMEGANVM.c:428-461 | With a page size of 0 the device takes the 13 bytes that follow for data and the function fails with the cells unchanged |
| XmegaNvm.EepromErased | firmware/AVRISP-MKII/Lib/XPROG/XMEGANVM.c:403-446 | Exactly the bytes tagged in the buffer are erased, in every page |
| XmegaNvm.TaggingEnds | firmware/AVRISP-MKII/Lib/XPROG/XMEGANVM.c:434-435 | The loop that tags them ends if and only if the page size is below 256 |
| TpiTarget.Decodes | firmware/AVRISP-MKII/Lib/XPROG/XPROGTarget.h:99-106 | Every TPI instruction, with any 6-bit port address, is understood as that instruction |
| TpiTarget.Unambiguous | firmware/AVRISP-MKII/Lib/XPROG/XPROGTarget.h:99-106 | The split port address never makes two instructions collide |
| TinyNvm.TinyEngine.SendPointerAddress | firmware/AVRISP-MKII/Lib/XPROG/TINYNVM.c:42-49 | The device's pointer holds the 16-bit address |
| TinyNvm.TinyEngine.WaitWhileNVMControllerBusy | firmware/AVRISP-MKII/Lib/XPROG/TINYNVM.c:102-120 | Terminates; true means that the controller is idle, false that the time is out, and a counter at rest for longer than the controller is busy gives true; nothing was written |
| TinyNvm.TinyEngine.ReadMemory | firmware/AVRISP-MKII/Lib/XPROG/TINYNVM.c:170-193 | True means exactly the requested bytes of the memory, the 16-bit pointer wrapping to 0; false that the time is out, which does not happen with the counter at rest |
| TinyNvm.TinyEngine.WriteMemory | firmware/AVRISP-MKII/Lib/XPROG/TINYNVM.c:203-241 | True means that the buffer, an odd last byte joined by 0xFF, has been stored word by word, never while the controller was busy; false that some leading words have and the time is out, which does not happen with the counter at rest for as long as the waits can take. A length of 65535 wraps to 0, and nothing is stored |
| TinyNvm.BlockHolds | firmware/AVRISP-MKII/Lib/XPROG/TINYNVM.c:203-241 | Erased cells hold the data afterwards, and no cell outside the padded block has changed; after 65535 bytes no cell has |
| SoftSpi.ShiftRegister | firmware/AVRISP-MKII/Lib/ISP/ISPTarget.c:130-139 | Shifting in a bit drops the sent bit and keeps the order of all others |
| SoftSpi.Port.TimerInterrupt | firmware/AVRISP-MKII/Lib/ISP/ISPTarget.c:118-144 | After k bits the register holds the unsent bits above the k received; MOSI is set before the clock rises; the count is 0 only with the last bit merged |
| SoftSpi.Port.TransferSoftSPIByte | firmware/AVRISP-MKII/Lib/ISP/ISPTarget.c:244-261 | Under any interrupts and timeouts, a completed byte is one full-duplex exchange if and only if the clock was low at the start; the data line has the first bit before the first edge |
| SoftSpi.Port.IspTransmitSw | firmware/usbasp/isp.c:159-188 | The bit loop performs the same exchange |
| Microwire.Port.SendData | firmware/asprog/microwire.cpp:5-23 | The memory takes exactly the first n bits, most significant first |
| UsbaspIsp.Reassembled | firmware/usbasp/isp.c:234-254 | The three address bytes and the parity bit give back the address modulo 2^25 |
| UsbaspIsp.Reaches | firmware/usbasp/isp.c:230-246 | An operation reaches its address if and only if it has 25 bits and the register is loaded or was right |
| UsbaspIsp.CacheRefines | firmware/usbasp/isp.c:230-307 | For any flash reads, writes and flushes in any order, skipping repeated loads changes neither the memory nor an answer, and cache and register stay equal |
| UsbaspIsp.Isp.Connect | firmware/usbasp/isp.c:112-134 | The device is reset, cache and register agree after connecting |
| UsbaspIsp.Isp.EnterProgrammingMode | firmware/usbasp/isp.c:198-228 | Success is the first of 32 attempts whose third answer is 0x53, and leaves the device enabled; cache and register still agree if and only if there was no retry or the cache is 0 |
| UsbaspIsp.Isp.Enable | firmware/usbasp/isp.c:203-206 | The enabling instruction reaches the device, which echoes its second byte |
| UsbaspIsp.Isp.UpdateExtended | firmware/usbasp/isp.c:230-246 | Cache and register both hold bits 17 to 24 of the address, and the memories are unchanged |
| UsbaspIsp.Isp.ReadFlash | firmware/usbasp/isp.c:248-256 | An idle device's answer is the cell the address pieces name |
| UsbaspIsp.Isp.Poll | firmware/usbasp/isp.c:281-296 | The retry loop ends and writes nothing: with 0 at the first answer other than the given value, so that a device that answers it while busy is ready, and with 1 when all answers in 30 slices of time were that value |
| UsbaspIsp.Isp.WriteFlash | firmware/usbasp/isp.c:258-298 | The byte goes to the addressed cell or buffer place; without polling mode nothing is waited for, otherwise the wait is a poll for 0x7F, or a pause if that is the data; as long as all waits have served, no write is early |
| UsbaspIsp.Isp.FlushPage | firmware/usbasp/isp.c:300-333 | The page of the address is programmed; the wait is a poll for 0xFF, or a pause if that is the last byte; as long as all waits have served, no write is early |
| UsbaspIsp.Isp.ReadEEPROM | firmware/usbasp/isp.c:335-340 | An idle device's answer is the EEPROM cell of the low 16 address bits |
| UsbaspIsp.Isp.WriteEEPROM | firmware/usbasp/isp.c:342-352 | The byte goes to the EEPROM cell of the low 16 address bits, and a pause follows |
| UsbaspFlash.FeedAdd | firmware/usbasp/main.c:533-574 | Cutting a block into packets differently makes no difference |
| UsbaspFlash.CommitChunk | firmware/usbasp/main.c:542-548 | A flush programs exactly the bytes loaded since the last one |
| UsbaspFlash.AcceptReached | firmware/usbasp/main.c:533-571 | Each byte extends the pending chunk or completes and programs it; the last byte of a LAST block leaves nothing pending |
| UsbaspFlash.LastFlush | firmware/usbasp/main.c:558-568 | The closing flush programs what is pending, and changes nothing when the page was just flushed |
| UsbaspFlash.BlocksProgrammed | firmware/usbasp/main.c:219-232 | Any split into consecutive FIRST to LAST blocks leaves the erased device equal to the data, and nothing else changed |
| UsbaspFlash.PacketsProgrammed | firmware/usbasp/main.c:533-574 | Any split into consecutive FIRST to LAST blocks, each arriving in any packets, leaves the erased device equal to the data, and nothing else changed |
| UsbaspFlash.UnpagedBlocks | firmware/usbasp/main.c:538-540 | Without pages any split into blocks writes exactly the data from the start address on |
| UsbaspFlash.UnpagedProgrammed | firmware/usbasp/main.c:538-540 | On erased cells of a device without pages the data is there afterwards and nothing else has changed, whatever the blocks and packets |
| UsbaspFlash.PageSizes | firmware/usbasp/main.c:224-228 | A transfer, split into blocks of any given sizes, is right for all data if and only if no chunk between two flushes straddles a page |
| UsbaspFlash.SmallPages | firmware/usbasp/main.c:224-228 | Page sizes up to 256 always qualify |
| UsbaspFlash.Straddling | firmware/usbasp/main.c:542-548 | Otherwise the first byte of the straddling chunk stays erased, for any blocks and data |
| UsbaspFlash.Spill | firmware/usbasp/main.c:551-554 | Bytes beyond the announced length go to the EEPROM at the following addresses |
| UsbaspFlash.NoSpill | firmware/usbasp/main.c:551-560 | The EEPROM is left alone if and only if there are no such bytes, when they would show |
| UsbaspFlash.ShortAddressReaches | firmware/usbasp/main.c:221-222 | A 16-bit address reaches its cell if and only if its top bit is clear |
| UsbaspFlash.FlashWriter.SetupWriteFlash | firmware/usbasp/main.c:219-232 | The request begins a block: 12-bit page size, flags, and the counter loaded with its low byte on FIRST |
| UsbaspFlash.FlashWriter.SetLongAddress | firmware/usbasp/main.c:245-250 | The 32-bit address is taken over, and addresses in requests are ignored from then on |
| UsbaspFlash.FlashWriter.FunctionWrite | firmware/usbasp/main.c:431-574 | The packet is fed to the writer byte by byte through the real address cache, with the waits the writer calls for, and 1 is returned exactly when it completes the announced length; no write is early as long as every wait has served, on a device that has pages if the host says so |
| UsbaspApp.WholeRead | firmware/usbasp/main.c:338-403 | A whole read is its bytes in order on the bus, for I2C all acknowledged but the last, then once the closing the request asked for, and the idle state |
| UsbaspApp.PulledIncoming | firmware/usbasp/main.c:338-403 | A read delivers exactly what has arrived on the lines; on SPI it sends zeros |
| UsbaspApp.ReadOnBus | firmware/usbasp/main.c:82-149 | From request to end: chip select, address byte or nothing, then every byte, then release, STOP or mwEnd as the request's bytes say |
| UsbaspApp.WriteOnBus | firmware/usbasp/main.c:89-142 | The same for writes, with the payload, or for MicroWire its first announced bits, in between |
| UsbaspApp.PlainBus | firmware/usbasp/main.c:71-175 | Of the requests without a data stage TRANSMIT sends its four bytes in order, I2C_WRITEBYTE its one, SPI_CONNECT raises chip select, MW_BUSY raises and lowers it; none changes the transfer state |
| UsbaspApp.PlainPassed | firmware/usbasp/main.c:54-302 | CONNECT, DISCONNECT, ENABLEPROG and the TPI requests are passed on to the target, no others, and an unknown request does nothing |
| UsbaspApp.PlainReply | firmware/usbasp/main.c:109-320 | TRANSMIT and I2C_READBYTE answer what has arrived, in order, I2C_WRITEBYTE what the device says after the byte, MW_BUSY whether it keeps its line low while selected, the others as listed |
| UsbaspApp.PulledAdd | firmware/usbasp/main.c:338-403 | Fetching bytes in two portions is fetching them at once |
| UsbaspApp.Packetisation | firmware/usbasp/main.c:443-518 | However the payload is cut, calls return 0 while bytes are missing and the one that brings the last returns 1 and closes the transfer |
| UsbaspApp.SentBytes | firmware/usbasp/main.c:448-475 | SPI and I2C writes put exactly the payload on the bus, in order |
| UsbaspApp.SentBits | firmware/usbasp/main.c:491-508 | A MicroWire write clocks out the first min(mw_bitnum, 8n) bits, most significant first |
| UsbaspApp.ExtraPacket | firmware/usbasp/main.c:466-484 | One packet too many is refused if and only if the request is not an SPI write, which instead answers 1 and closes again |
| UsbaspApp.Usbasp.FunctionSetup | firmware/usbasp/main.c:50-325 | The globals, the bus and the reply follow the model of the request |
| UsbaspApp.Usbasp.FunctionRead | firmware/usbasp/main.c:327-403 | The three byte loops deliver the next bytes of the transfer, closing it with the last; other states are refused |
| UsbaspApp.Usbasp.FunctionWrite | firmware/usbasp/main.c:431-518 | The three byte loops send the packet, closing the transfer with its last byte; other states are refused |
| UsbPipe.MessageWhole | firmware/usbasp/usbdrv/usbdrv.c:525-547 | The packets of a message concatenate to it; all have 8 bytes but the last, which is shorter; PIDs alternate from DATA1 |
| UsbPipe.BuildServes | firmware/usbasp/usbdrv/usbdrv.c:525-547 | Each built packet is the next one of the message, from the bus or from memory |
| UsbPipe.StepServes | firmware/usbasp/usbdrv/usbdrv.c:568-593 | Whatever the host does short of a new SETUP, the transfer stays in order |
| UsbPipe.ControlIn | firmware/usbasp/usbdrv/usbdrv.c:442-547 | For any polling pattern the packets so far are the first packets of the message min(L, wLength), none lost |
| UsbPipe.SetupThenPoll | firmware/usbasp/usbdrv/usbdrv.c:573-593 | The poll that accepts a SETUP goes on at once like any other poll |
| UsbPipe.Delivery | firmware/usbasp/usbdrv/usbdrv.c:568-593 | For any polling pattern every IN token after a poll delivers one more packet up to the last; then the pipe is silent |
| UsbPipe.StreamDelivered | firmware/usbasp/main.c:338-403 | For 0 < n < 65535 and any polling pattern with enough polls and IN tokens the host receives the n bus bytes in order, n being the number in the last two bytes of the request, and chip select, STOP or mwEnd comes exactly after byte n |
| UsbRuns.Lockstep | firmware/usbasp/usbdrv/usbdrv.c:438-497 | During a stream usbMsgLen equals prog_nbytes at every poll boundary, whatever the host sends short of a new SETUP |
| UsbOwner.RunOwned | firmware/usbasp/usbdrv/usbdrv.c:438-483 | Over all interleavings the data functions run only with the state of the last accepted SETUP |
| UsbOwner.OwnedExactly | firmware/usbasp/usbdrv/usbdrv.c:438-483 | Over all interleavings the application is exactly where the owner's transfer is: a read has fetched its first k bytes and counts the rest, a write has taken the packets since the SETUP |
| UsbOwner.NothingLeaks | firmware/usbasp/usbdrv/usbdrv.c:438-471 | Two devices that differ only in the transfer a SETUP interrupts look the same to the host and on the bus from then on, whatever the host does |
| UsbRuns.ControlInAny | firmware/usbasp/usbdrv/usbdrv.c:438-547 | Between two SETUPs, under any order of polls, IN and OUT, the host gets packets of this request's message only, in order and at most once |
| UsbRuns.Losses | firmware/usbasp/usbdrv/usbdrv.c:473-478 | Under any such order exactly one packet is lost for every OUT packet that arrives while one is on offer; the packets are the first of the message, none missing, if and only if none does |
| UsbRuns.OutDropsPacket | firmware/usbasp/usbdrv/usbdrv.c:473-478 | The OUT packet is refused and removes the packet on offer; the next one may be offered at once |
| UsbRuns.UnreadRun | firmware/usbasp/main.c:331-336 | For writes and contradictory reads, over every run, the application does exactly what the OUT packets say, one after the other |
| UsbRuns.ContradictoryHarmless | firmware/usbasp/main.c:331-336 | A request with a payload whose direction contradicts its function clocks payload bytes if and only if it is a write declared as IN and OUT packets bring some |
| UsbRuns.ContradictoryEmpty | firmware/usbasp/main.c:454-481 | Without a payload it never does; an OUT packet for a write declared as IN only closes the transfer |
| UsbRuns.ContradictoryClocks | firmware/usbasp/main.c:466-475 | An SPI write of 4 bytes declared as IN, followed by an OUT packet of 2, clocks out those two |
| UsbRuns.ContradictoryStalls | firmware/usbasp/main.c:436-441 | It is stalled, for an IN request if and only if its length is neither 0 nor 65535 |
| UsbRuns.NeverServed | firmware/usbasp/usbdrv/usbdrv.c:528-534 | Reads of 0 or 65535 bytes never reach the bus, under any order of polls, IN and OUT |
| UsbRuns.ReadEnds | firmware/usbasp/main.c:349-353 | A read comes to its end on the bus if and only if its length is neither 0 nor 65535 |
| UsbRuns.ControlOut | firmware/usbasp/usbdrv/usbdrv.c:472-480 | While data is missing the application has exactly what was sent, and the host gets no status |
| UsbRuns.ControlOutEnds | firmware/usbasp/usbdrv/usbdrv.c:472-480 | The packet that completes the payload closes the transfer and is answered with one empty DATA1 packet, however the payload was cut and polled |
| UsbRuns.EmptyWrite | firmware/usbasp/usbdrv/usbdrv.c:459-492 | A write request of length 0 is left as it is and unanswered, whatever the host does short of an OUT packet or a SETUP |
| UsbRuns.EmptyWriteEnds | firmware/usbasp/main.c:458-481 | Any OUT packet closes it and is answered with one empty DATA1 packet |
| UsbRuns.HostReads | firmware/usbasp/main.c:82-149 | For SPI_READ, I2C_READ and MW_READ requests, in terms of their bytes: the host gets as many bytes as the last two say, those that came in on the lines |
| UsbRuns.HostWrites | firmware/usbasp/main.c:89-142 | For SPI_WRITE, I2C_WRITE and MW_WRITE requests, in terms of their bytes: OUT packets that add up go out in order, on MicroWire as far as byte 4 says, and one empty DATA1 packet answers |
| UsbDriver.Driver.ProcessSetup | firmware/usbasp/usbdrv/usbdrv.c:459-492 | By the type bits of the first byte a SETUP goes to the driver or the application; a reply is limited to wLength; a stream (codes 51, 52, 71, 72, 92, 93) gets wLength unlimited when the direction bit is set and no length otherwise |
| UsbDriver.Driver.ProcessRx | firmware/usbasp/usbdrv/usbdrv.c:421-484 | A received packet has the effect the pipe model gives it |
| UsbDriver.Driver.CopyMessage | firmware/usbasp/usbdrv/usbdrv.c:500-514 | The copy loop takes the next bytes of a reply in memory |
| UsbDriver.Driver.BuildTxBlock | firmware/usbasp/usbdrv/usbdrv.c:525-547 | The next packet, or a stall, as the pipe model says |
| UsbDriver.Driver.PollOnce | firmware/usbasp/usbdrv/usbdrv.c:568-593 | One turn of the main loop is one step of the pipe model |
| I2cWave.MonitorRecovers | firmware/usbasp/i2c.c:40-127 | The monitor recovers from the waveform exactly the operations called for, in order and nothing else, if the device lets go of SDA at START and STOP |
| I2cWave.ConditionSeen | firmware/usbasp/i2c.c:40-61 | A START or STOP is seen if and only if the device does not hold SDA |
| I2cWave.ByteSeen | firmware/usbasp/i2c.c:63-127 | Nine clocks are one byte with its acknowledge, whatever the device does |
| I2cWave.SendMeaning | firmware/usbasp/i2c.c:63-92 | With a device that keeps off, the byte on the wires is the one sent |
| I2cWave.ReceiveMeaning | firmware/usbasp/i2c.c:94-127 | The byte on the wires is the device's, the acknowledge the master's |
| I2cMaster.Master.StartCondition | firmware/usbasp/i2c.c:40-50 | A monitor sees START if and only if the device lets go; SCL is released at the end |
| I2cMaster.Master.StopCondition | firmware/usbasp/i2c.c:52-61 | A monitor sees STOP if and only if the device lets go; SCL is released at the end |
| I2cMaster.Master.SendByte | firmware/usbasp/i2c.c:63-92 | A monitor sees one byte; the result is 1 exactly when the device acknowledged |
| I2cMaster.Master.ReadByte | firmware/usbasp/i2c.c:94-127 | A monitor sees one byte; the result has the device's eight bits |
| I2cMaster.Master.Address | firmware/usbasp/i2c.c:129-141 | The address goes out with the direction in its lowest bit |
| BitOrder.TopBit | firmware/usbasp/i2c.c:69-80 | After i shifts the top bit of the register is bit i of the byte, counted from the most significant |
| BitOrder.BitsOfValue | firmware/usbasp/i2c.c:101-113 | A byte shifted in bit by bit has those bits |
| UsbaspI2c.SingleOps | firmware/usbasp/main.c:103-115 | I2C_START, I2C_STOP, I2C_READBYTE and I2C_WRITEBYTE do that one operation on the bus, and no other request without a data stage does any |
| UsbaspI2c.TransactionOps | firmware/usbasp/main.c:117-129 | I2C_WRITE with restart then I2C_READ of n bytes: START, address and write, data, repeated START, address and read, n bytes all acknowledged but the last, STOP |
| UsbaspI2c.TransactionSeen | firmware/usbasp/main.c:358-383 | A bus monitor reports exactly this transaction, event by event, and the bytes it sees the device send are those delivered to the host |
| ArduinoI2c.Arduino.ReadChunk | firmware/asprog/i2c_cmd.cpp:93-115 | A chunk continues the read, and ends it only with the transfer's last byte |
| ArduinoI2c.Arduino.CmdRead | firmware/asprog/i2c_cmd.cpp:82-125 | With all chunks acknowledged the chunked read equals one in one piece and delivers as many bytes as the two count bytes say; a refusal ends it with STOP after whole chunks; 0 or 32768 bytes and more transfer nothing |
| ArduinoI2c.WholeReadShape | firmware/asprog/i2c_cmd.cpp:93-115 | Only the last byte is not acknowledged, and the one STOP follows it |
| ArduinoI2c.Arduino.CmdWrite | firmware/asprog/i2c_cmd.cpp:141-179 | What a write puts on the bus, however much the host delivers for each request and whatever the buffer held before; 32768 bytes and more send the address only |
| ArduinoI2c.WriteDelivered | firmware/asprog/i2c_cmd.cpp:155-178 | With a host that delivers all it is asked for, the bus carries of each full chunk only the first 64 bytes, and ends as asked |
| ArduinoI2c.WriteAbandoned | firmware/asprog/i2c_cmd.cpp:157-169 | When the host has stopped sending, one portion of the old buffer still goes out, then STOP |
| ArduinoI2c.WriteComplete | firmware/asprog/i2c_cmd.cpp:155-164 | That is all of the data if and only if there are fewer than 256 bytes |
| Sfdp.Unpacked | tools/make_sfdp_fixtures.py:26-27 | Packed words read back |
| Sfdp.RegionRoundTrip | tools/make_sfdp_fixtures.py:97-101 | A region reads back if and only if its size fits 2^32 and its mask 4 bits |
| Sfdp.MapFields | tools/make_sfdp_fixtures.py:104-110 | A map header tells itself as a map, with its end mark, configuration and region count |
| Sfdp.MapReserved | tools/make_sfdp_fixtures.py:107-110 | Reserved bits of a map header are ones |
| Sfdp.CommandFields | tools/make_sfdp_fixtures.py:122-130 | A command descriptor tells itself as a command, with its end mark and all its fields |
| Sfdp.CommandReserved | tools/make_sfdp_fixtures.py:127-129 | Reserved bits of a command descriptor are ones |
| Sfdp.DescriptorsRoundTrip | tools/make_sfdp_fixtures.py:104-130 | Any mixture of maps and commands reads back up to the end mark, whatever follows |
| Sfdp.MapDescriptor | tools/make_sfdp_fixtures.py:104-119 | The loop builds the encoding of the map |
| Sfdp.Build | tools/make_sfdp_fixtures.py:30-49 | The one-pass layout of headers, pointers and bodies is the image |
| Sfdp.TablesInLine | tools/make_sfdp_fixtures.py:35-47 | Tables are disjoint and in bounds: they follow the headers one behind the other and end with the image |
| Sfdp.ImageRoundTrip | tools/make_sfdp_fixtures.py:30-49 | Every table reads back byte for byte from its declared pointer |
| Sfdp.HeaderFields | tools/make_sfdp_fixtures.py:30-47 | Signature, revision, table count, and for every table its identity, revision and length read back; sector maps and 4-byte instruction tables have revisions of their own |
| Sfdp.BasicRoundTrip | tools/make_sfdp_fixtures.py:52-94 | Density, page size, addressing mode, 4K opcode and erase types of the basic table read back |
| Sfdp.BasicRest | tools/make_sfdp_fixtures.py:52-94 | The first byte, the reserved ones, word 16 and the zeros of the basic table |
| Sfdp.TimingFields | tools/make_sfdp_fixtures.py:71-89 | The times of the basic table read back, and without timing only the page size is left |
| Sfdp.BasicTable | tools/make_sfdp_fixtures.py:52-94 | The words filled in place are the table |

## Left out

- UsbaspApp.Usbasp.FunctionSetup: does not model the six block transfers to and from AVR and TPI targets (codes 4, 6, 7, 8, 15 and 16) on the control pipe; WRITEFLASH is modelled in UsbaspFlash instead, because its page counter is the hard part. What the other target requests do on the pins is one event.
- UsbPipe.ControlIn: leaves out the same six requests, and so do Delivery, UsbRuns.ControlInAny and UsbRuns.Losses.
- UsbOwner.RunOwned: is for runs without these six requests, and so is NothingLeaks.
- UsbDriver.Driver.PollOnce: does not model the USB reset detection at the end of usbPoll; the interrupt layer in assembler, with CRC and token handling, appears only as received packets and IN tokens.
- UsbaspFlash.PageSizes: is for even page sizes and page-aligned starts, as the devices have them.
- UsbaspFlash.FlashWriter.FunctionWrite: is for addresses below 2^25, which is as far as the three address bytes reach.
- IspLink.RunRefines: is for flash blocks inside the 24-bit word address space, EEPROM blocks that end before address 0xFFFF, and commits whose block stays in one 64K-word segment; EepromEnds and CommitReaches say what happens otherwise.
- IspLink.RunAnswers: is about the cells a read addresses; a device still busy with a write answers otherwise, and IspEngine.ReadMemory says so.
- IspLink.PageRoundTrip: has no busy time either; IspEngine.ProgramAndReadBack is the same with it.
- IspEngine.IspEngine.ProgramMemory: takes the page write, commit and read opcodes of the device documentation, which the host sends with each command.
- IspEngine.IspEngine.ReadData: takes the read opcode of the device documentation, which the host sends with the command.
- IspEngine.IspEngine.ReadMemory: takes the same opcode.
- IspEngine.IspEngine.EnterISPMode: takes any byte for the one the code reads behind its four response bytes when the poll index is above 4.
- ArduinoI2c.Arduino.CmdRead: takes Serial.write to send all it is given, and int to be 16 bits wide.
- SoftSpi.Port.TransferSoftSPIByte: does not bound the time until the interrupt fires; a byte either completes or the timeout ends it.
- XmegaNvm.XmegaEngine.EraseMemory: only records the orders to erase a section, the user row or one EEPROM page, because the layout of a device is not part of this model; an EEPROM page size of 256 or more, for which the function does not return, is left to TaggingEnds.
- TINYNVM_EraseMemory: one command and one write after the waits modelled here.
- XMEGA CRC reading, and enabling and disabling the PDI and TPI interfaces: short fixed sequences.
- Chip erase, fuse, lock and signature commands of the AVRISP engine, and its parameter table: single instructions without state. Reset polarity and pin handling are not part of this model.
- Hardware SPI, SCK speed selection and LEDs: real time is not part of this model; of delays it has the order and the lengths asked for, not how long a device takes.
- The TPI routines of USBasp and its microwire.c are not part of this model; the MicroWire bit order is taken from the Arduino program's function of the same name.
- SPI and MicroWire commands of the Arduino program: the same chunk loops as its I2C commands.
- The desktop application and its chip lists, validators and file formats.
