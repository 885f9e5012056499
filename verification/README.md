# Battery manager firmware: verification model

The firmware runs on an STM32F303 and manages a battery of up to twelve cells. This project models
its stateful parts and proves what they keep, over whole runs and over every place where the power
can fail or an interrupt can strike:

- **The emulated EEPROM** (`Flash`, `LogPage`, `EepromOps`, `CrashSafety`, `WriteSafety`, `Durability`,
  `StoreTheorems`, `Histories`, `FailingRuns`, `AnyFlash`, `Eeprom`). Two 2 KB flash pages hold a log
  of (value, virtual address) slots behind a header slot. The class `Eeprom` scans and programs the
  flash in place, as the firmware does, and each of its methods is proved to issue exactly the list of
  flash primitives that `EepromOps` specifies. Both flash primitives, program a halfword and erase a
  page, are atomic; a power loss is a cut after any number of them. The lemmas are about those lists:
  the store refines a plain map over every run of writes, boots and cuts. `AnyFlash` says what each
  routine does to a flash with any contents, in terms of the halfwords.
- **The configuration** (`ConfigImage`, `Config`, `ConfigRuns`). The packed 76-byte struct is stored as
  38 halfwords. RAM and flash agree after start-up exactly when `EE_Init` succeeds or leaves a complete
  configuration to read. Over whole runs of start-ups and field writes, each cut anywhere, there is one
  configuration that the next start-up brings back, and a cut inside a field write leaves a prefix of
  the field's halfwords new.
- **The packet protocol** (`PacketSpec`, `PacketProofs`, `PacketTiming`, `Ring`, `Link`). A receiver
  that takes one byte at a time, the sender that builds its frames, an independent grammar of the byte
  stream, and the ring through which the USB and CAN threads hand over their input.
- **Checksums** (`BitFacts`, `CrcTables`, `Crc`, `CrcDriver`, `Pec`, `PecPolynomial`). The software CRC
  by table and by bit, and the 8-bit packet error code of the cell monitor, as arithmetic on
  polynomials over GF(2).
- **Discharge control** (`PowerSteps`, `PowerLaws`, `Power`). `power_update` one statement at a time,
  with the overcurrent interrupt between any two of them, and the same routine as a class. `PowerLaws`
  gives every field after start-up and after an undisturbed update in terms of sensors, pads and
  configuration.
- **The firmware updater** (`Firmware`) and **the cell readings** (`Cells`).

The table sizes are those of the firmware: 511 data slots a page, and a table of 160 virtual addresses
of which 38 are used. The EEPROM lemmas hold for any table whose non-zero entries are distinct and not
0xFFFF, and which has fewer variables than a page has slots.

## Where the code and its intent part

Each of these is proved.

- A power loss in `EE_Init` between marking the new page valid and erasing the old one leaves two valid
  pages, and the next boot formats both (`eeprom.c:144-159`, `eeprom.c:188-197`). `WindowForgets` gives
  a run that loses a variable written 511 times. `InitKeepsIff` says that this is the only way.
- Repeatedly interrupted recoveries fill the receiving page. `RoomRunsOut` gives a run from a blank
  device after which a boot returns PAGE_FULL and a write is refused, and `StuckForever` says that
  from then on every boot and every write fails. `RecoverySucceedsIff` says when a recovery still
  fits, and `NeverFull` that up to 11 interruptions in a row are harmless with 38 variables.
- On such a device the flash refuses the first primitive of every write (`Discipline`). Reads still
  return every completed write (`Histories.DurableOutsideWindow`), and start-up still brings back a
  complete stored configuration (`InitMirrors`), which then cannot be changed any more.
- The check of the declared length does not reject: the next statement overwrites its state
  (`packet.c:70-74`). `OverrunIff` says when this leads past the end of the buffer.
- The number of cells is limited to 12 only in a field that starts at its offset. A field that starts
  one byte before it, at offset 0, with two bytes or more, stores what it brings (`config.c:97-103`);
  `Config.WriteField` says that nothing else takes the number above 12.
- A controller started by charger, alarm or USB never turns discharge on, as no code of the
  repository calls `power_enable_discharge` (`power.c:39-45`, `TurnsOnIff`).
- A frame with an empty payload can be sent and is not recognised (`EmptyPayloadIsLost`).
- A ring that is filled completely reads as empty (`FullReadsEmpty`).
- The interrupt clears the discharge switch, but an update that is about to turn it on does so
  afterwards; only the next update turns it off (`AlertCanComeTooLate`, `OvercurrentLatch`).
  `AlertInTimeIff` says exactly when the interrupted update itself ends with discharge off.
- The interrupt's fault bit is lost if and only if it falls between the load and the store of another
  `faults |=` (`FaultRecordedIff`), and `FaultCanBeLost` reaches that moment.
- The offset of a firmware chunk is not checked (`fw_updater.c:12-19`). `RegionIsNotChecked` gives a chunk
  that changes the bootloader's first halfword when it is erased, and `SparesOutsideIff` says exactly
  which chunks leave everything outside the region alone.
- A firmware chunk that is sent twice is refused unless all its words are 0x0000 or 0xFFFF
  (`RetransmissionSucceedsIff`), and a refused write returns with the system lock still held
  (`WriteFirmware`).

## Model

| member | source | states |
|---|---|---|
| Durability.Durable | eeprom.c:60-263 | From a blank device, every run of writes and boots, each cut after any number of primitives, is explained step by step by a plain map: a completed write stays, an interrupted one is there entirely or not at all, boots change nothing. A boot that finds two valid pages is the one exception, and such a state only follows an interrupted boot. |
| Durability.StepRefines | eeprom.c:334-350 | One event of the device is one step of the map, and keeps the invariant of both pages. |
| Histories.DurableOutsideWindow | eeprom.c:275-322 | In a run that never leaves two valid pages there is one history of a plain map such that every event is a step of it, and every read at every moment the device is up returns that map's value, also on a device that has run out of room. |
| Histories.TransferOnPage | eeprom.c:560-604 | Until its last two primitives a page transfer programs the new page only, so the old page keeps every completed write. |
| StoreTheorems.WriteIsAtomic | eeprom.c:334-350 | Stop a write after any k primitives, interrupt c boots, let one finish: the old map or the new one, and the new one exactly from the commit point on, while m * (c + 2) < 512. |
| StoreTheorems.BootsKeep | eeprom.c:74-260 | Any number of interrupted boots keeps the map, unless one stops with both pages valid, and each takes at most one slot per variable. |
| StoreTheorems.ReadYourWrites | eeprom.c:275-322 | After any list of writes, across any number of page transfers, a read returns what a plain map returns. |
| StoreTheorems.InitKeepsIff | eeprom.c:188-197 | A boot that succeeds keeps the map if and only if it does not find both pages valid, or there is nothing to lose. |
| FailingRuns.WindowForgets | eeprom.c:144-159 | A concrete run: 511 successful writes of a variable, two power losses, and the variable is gone. |
| FailingRuns.RoomRunsOut | eeprom.c:120-142 | A concrete run from a blank device: fill a page with two variables, lose the power in the transfer and in 510 recoveries; then a boot returns PAGE_FULL and a write is refused. |
| FailingRuns.FillUp | eeprom.c:334-350 | Any list of up to 511 writes after the first boot succeeds without a transfer, and leaves the map it updates. |
| StoreTheorems.StuckForever | eeprom.c:211-233 | Once a recovery has run out of room, every later boot and every later write fails, whatever is cut, and the flash never changes. |
| StoreTheorems.RecoverySucceedsIff | eeprom.c:211-233 | A redone transfer succeeds if and only if the variables still to be copied fit the receiving page. |
| StoreTheorems.NeverFull | eeprom.c:120-151 | While m * (c + 2) < 512 for m variables and c boots interrupted in a row, no boot and no write of the run fails. |
| StoreTheorems.ReachableHeaders | eeprom.c:74-260 | No reachable pair of headers is RECEIVE/RECEIVE or has an unknown value; RECEIVE beside ERASED already holds the whole map; two valid pages lead to a format. |
| StoreTheorems.Discipline | eeprom.c:493-505 | In every reachable state, every halfword that the next call programs is erased or is programmed with 0x0000, if and only if the call is not a write on a device whose recovery ran out of room. |
| StoreTheorems.WearBound | eeprom.c:529-615 | N crash-free writes cost at most (N + slots in use) / (512 - m) page transfers, whatever is written. |
| StoreTheorems.ReadReady | eeprom.c:396-456 | In the normal state a read finds the newest value of an address, and nothing where nothing was written. |
| WriteSafety.WriteCrash | eeprom.c:468-516 | A write cut anywhere stands for the old map before the commit point and for the new map after it, never with two valid pages; uncut it succeeds. |
| WriteSafety.TransferCrash | eeprom.c:529-615 | A page transfer cut anywhere: old map up to the second primitive, new map after it, through copying, erasing and marking. |
| WriteSafety.InitCrash | eeprom.c:60-263 | A boot cut anywhere keeps the map, except one primitive before the end of a recovery. |
| WriteSafety.CopyFits | eeprom.c:211-233 | The copying loop succeeds if and only if the live variables it has to copy fit, and then uses exactly that many slots. |
| CrashSafety.CopyCrash | eeprom.c:576-595 | The copying loop, cut anywhere, keeps the map: received entries agree with it, the old page agrees except at the first received address. |
| CrashSafety.CopyResult | eeprom.c:576-595 | A completed copying loop leaves the whole map on the receiving page; one that fails has filled that page. |
| LogPage.FillSlot | eeprom.c:490-516 | Filling the first blank slot keeps the used slots a prefix and changes the newest value of exactly one address. |
| LogPage.TearSlot | eeprom.c:493-505 | A slot with data and no address is found under no address. |
| AnyFlash.ReadVariableIs | eeprom.c:275-322 | Whatever the flash holds: a read fails exactly when neither header is 0x0000, and finds a value exactly when it is in the last slot of the read page that carries the address. |
| AnyFlash.PutIs | eeprom.c:468-516 | Whatever the flash holds: no valid page, no blank slot, or the value and then the address into the first blank slot. |
| AnyFlash.TransferMarks | eeprom.c:529-615 | Whatever the flash holds: a transfer first marks the other page 0xEEEE, and one that succeeds ends by erasing the page that was read and marking the other 0x0000. |
| AnyFlash.InitFormatsIff | eeprom.c:74-263 | The pairs of headers that a boot formats, any 16-bit values. |
| AnyFlash.InitEnds | eeprom.c:60-263 | Whatever the flash holds, a boot that succeeds leaves one page valid and the other erased. |
| EepromEmulation.ProgramsOneHalfWord | eeprom.c:493-505 | By address: programming changes the halfword it names, if that is erased or is to become 0, and no other. |
| EepromEmulation.ErasesOnePage | eeprom.h:37-60 | By address: erasing a page leaves 0xFFFF in its 2 KB and changes nothing else. |
| EepromEmulation.FormatLeaves | eeprom.c:358-385 | By address: 0x0000 at 0x08000800 and 0xFFFF in the rest of both pages. |
| EepromEmulation.Eeprom.Init | eeprom.c:60-263 | Issues exactly the specified primitives for each of the nine header pairs, and returns their status. |
| EepromEmulation.Eeprom.ReadVariable | eeprom.c:275-322 | The backward scan over addresses finds the newest entry of the valid page. |
| EepromEmulation.Eeprom.WriteVariable | eeprom.c:334-350 | Puts the variable, or transfers the page when it is full. |
| EepromEmulation.Eeprom.Format | eeprom.c:358-385 | Erase page 0, mark it valid, erase page 1. |
| EepromEmulation.Eeprom.FindValidPage | eeprom.c:396-456 | The page to read from and the page to write to, which differ while a page is receiving. |
| EepromEmulation.Eeprom.VerifyPageFullWriteVariable | eeprom.c:468-516 | Data, then address, into the first blank slot; PAGE_FULL if there is none. |
| EepromEmulation.Eeprom.PageTransfer | eeprom.c:529-615 | Mark, write the new value, copy the rest, erase the old page, mark the new one valid; the first failure ends it. |
| EepromEmulation.Eeprom.CopyRemaining | eeprom.c:120-142 | The recovery's loop leaves out the variable in the first entry of the receiving page. |
| EepromEmulation.Eeprom.ProgramHalfWord | ChibiOS_16.1.4/ext/stdperiph_stm32f3/src/stm32f30x_flash.c:395-421 | A halfword is programmed if it is erased or the value is 0x0000, and is otherwise left as it is. |
| EepromEmulation.Eeprom.ErasePage | ChibiOS_16.1.4/ext/stdperiph_stm32f3/src/stm32f30x_flash.c:264-290 | Every halfword of the page becomes 0xFFFF, and no other changes. |
| ConfigImage.FieldMirrors | config.c:145-163 | If flash and RAM agree, they agree again after a field is overwritten and its covering halfwords are written, for odd and even offsets and sizes. |
| ConfigImage.FieldCrash | config.c:155-163 | A field write cut anywhere, then up to 11 interrupted boots and a complete one: exactly a prefix of the covering halfwords is new, all the rest old. |
| ConfigImage.ReadBackMirror | config.c:169-183 | What was mirrored is read back byte for byte. |
| ConfigImage.CoversField | config.c:155 | The covering loop reaches every byte of the field. |
| ConfigImage.FieldWordsAre | config.c:155-163 | A field write updates variable 1000 + i, with byte 2i as its high byte, exactly for the halfwords that meet the field, in order and once each. |
| ConfigImage.TableFits | config.c:20-25 | The table has 38 distinct usable addresses. |
| ConfigStore.InitMirrors | config.c:18-31 | For every image that a run can reach, two valid pages included: after start-up every stored halfword is the RAM's if and only if `EE_Init` succeeds or leaves all 38 halfwords to read; and the EEPROM is in the normal state, mirroring the RAM and writable, if and only if `EE_Init` succeeds. |
| ConfigStore.InitReads | config.c:169-189 | A complete stored map survives every start-up in which `EE_Init` succeeds. |
| ConfigStore.Config.Init | config.c:18-31 | The same two statements about the RAM and flash of the running routine; a complete stored map is then the configuration in RAM. If `EE_Init` fails, the flash is as it left it and no write can change it. |
| ConfigRuns.ConfigDurable | config.c:18-31 | Over every run of start-ups and field writes from a blank device, each cut anywhere, outside the window and with at most 11 interrupted starts in a row: one configuration, at first the defaults, that start-ups keep, completed field writes replace and interrupted ones replace up to a prefix; whenever the device is up, RAM and flash hold it. |
| ConfigRuns.FieldKeeps | config.c:145-163 | One field write of such a run. |
| ConfigStore.Config.ReadAll | config.c:169-189 | RAM is the stored image; if any halfword is missing, RAM is the defaults and they are written. |
| ConfigStore.Config.WriteField | config.c:91-167 | A field at offset 1 stores at most 12; at any offset but 1, 22, 30 and 44 the caller's bytes are stored as they are; no other byte of RAM changes. The cell count stays at most 12 if and only if the field does not start at 0 and bring a larger one. If RAM and flash agreed, variables 1000 to 1037 hold the new RAM, high bytes first. |
| ConfigStore.Config.WriteAll | config.c:67-89 | Writes the 38 halfwords in order and stops at the first error. |
| PacketProofs.StreamRoundTrip | packet.c:210-232 | For any checksum function and any payloads of 1 to 506 bytes, with any filler between frames, the receiver dispatches exactly the payloads sent, in order, and is back at START. |
| PacketProofs.FollowsGrammar | packet.c:47-111 | Over any byte stream that declares lengths up to 2048, the dispatched payloads are those of the one-shot grammar. |
| PacketProofs.IndexInBuffer | packet.c:77-100 | With such lengths neither the bytes stored nor those the checksum covers leave the buffer. |
| PacketProofs.OverrunIff | packet.c:68-76 | The receiver runs past its buffer if and only if the declared length is above 2048: the length check does not stop it. |
| PacketProofs.EmptyPayloadIsLost | packet.c:77-84 | A sent frame is dispatched if and only if its payload is not empty. |
| PacketProofs.EncodeIs | packet.c:210-232 | A frame by position: 80 and the length in one byte up to 255, or 81 and the length in two, the payload, the checksum high byte first, 10. |
| PacketTiming.TimelyTicksAreInvisible | packet.c:113-123 | Timeout ticks that do not run out inside a frame change nothing that is dispatched. |
| PacketTiming.SilenceResets | packet.c:113-123 | n ticks without a byte return the receiver to START exactly when n exceeds the timeout that is left. |
| PacketTiming.TimeoutRenewed | packet.c:47-111 | Each byte of a frame sets the timeout to 1000; bytes between frames, and those between checksum and newline, leave it. |
| PacketTiming.SilenceAfterByte | packet.c:113-123 | A receiver inside a frame waits 1000 ticks after a byte and is back at START after one more. |
| PacketTiming.FrameSurvivesPauses | packet.c:47-123 | A frame of which every byte is followed by at most 1000 ticks is dispatched. |
| Link.PacketReceiver.ProcessByte | packet.c:47-111 | Wherever it stays inside the buffer, the switch over the static variables makes exactly one step of the receiver. |
| Link.PacketReceiver.Timeout | packet.c:113-123 | One tick. |
| Link.PacketReceiver.SendPacket | packet.c:210-232 | Builds the frame in its 512-byte buffer: start byte, length, payload, checksum and newline at their positions. |
| Link.ThreadsParseTheStream | comm_usb.c:374-413 | Under every interleaving of the two threads with at most 2047 bytes outstanding, the dispatched payloads are a prefix of those of direct parsing, and all of them once the ring is seen empty. |
| Ring.InOrderAlways | comm_can.c:55-107 | With at most N - 1 items outstanding, and wherever the consumer is preempted between test, copy, increment and wrap: the consumed items are a prefix of the produced ones, a held copy is the next item, and the loop test is exact. |
| Ring.StepKeepsInv | comm_usb.c:377-411 | Each step of either thread keeps the ring's contents equal to the outstanding items, in order. |
| Ring.SeesItemIff | comm_usb.c:405 | The loop test sees an item if and only if between 1 and N - 1 items are outstanding. |
| Ring.FullReadsEmpty | comm_usb.c:377-385 | With N items outstanding the ring reads as empty: the bound is tight. |
| Ring.SharedRing.Put | comm_usb.c:377-382 | The producer's step on the array. |
| Ring.SharedRing.HasItem | comm_usb.c:405 | The consumer's loop test. |
| Ring.SharedRing.Peek | comm_usb.c:406 | The copy of the item at the read index. |
| Ring.SharedRing.MoveOn | comm_usb.c:406 | The increment of the read index. |
| Ring.SharedRing.WrapRead | comm_usb.c:408-410 | The wrap of the read index. |
| Crc.TableRefinesBitwise | ChibiOS_16.1.4/community/os/various/crcsw.c:282-334 | For every message and both shipped configurations, the table form and the bitwise form return the same value, although the 16-bit register is never masked. |
| Crc.Crc32IsRfc1952 | ChibiOS_16.1.4/community/os/various/crcsw.c:157-165 | The CRC-32 configuration computes the CRC of section 8 of RFC 1952, in both forms. |
| Crc.Crc16IsSerial | ChibiOS_16.1.4/community/os/various/crcsw.c:168-177 | The CRC-16 configuration, in both forms, is the serial CRC: start at 0, eight right-shifting steps by 0xA001 a byte, no final complement. |
| Crc.MirroredInput | ChibiOS_16.1.4/community/os/various/crcsw.c:302-325 | For every configuration without a table, reflecting the input is reflecting each byte of the message. |
| Crc.MirroredOutput | ChibiOS_16.1.4/community/os/various/crcsw.c:327-334 | And reflecting the output is reflecting the checksum that has the reflected final value. |
| Crc.SplitMessage | ChibiOS_16.1.4/community/os/various/crcsw.c:269-292 | A message split over two calls after one reset leaves the same register as one call. |
| Crc.RegistersAgree | ChibiOS_16.1.4/community/os/various/crcsw.c:302-325 | After any message the register of the table form is the reflection of that of the bitwise form. |
| Crc.ReflectedBit | ChibiOS_16.1.4/community/os/various/crcsw.c:189-204 | Bit n - 1 - k of a reflection is bit k of its argument. |
| Crc.Reflect | ChibiOS_16.1.4/community/os/various/crcsw.c:189-204 | The loop computes the reflection, for 8, 16 and 32 bits. |
| CrcTables.Crc32TableIs | ChibiOS_16.1.4/community/os/various/crcsw.c:42-107 | Each of the 256 table entries is eight division steps on its index. |
| CrcTables.Crc16TableIs | ChibiOS_16.1.4/community/os/various/crcsw.c:111-144 | The same for the 16-bit table. |
| CrcDriver.Driver.Calc | ChibiOS_16.1.4/community/os/various/crcsw.c:282-334 | Both loops update the driver's register in place as specified; the result is masked and, without a table, reflected. |
| CrcDriver.Driver.Reset | ChibiOS_16.1.4/community/os/various/crcsw.c:269-271 | The register is the initial value. |
| PecPolynomial.PecIsTheRemainder | ltc6803.c:257-296 | The code of an n-byte message M is the one and only remainder of 0x41 * x^(8n) + M(x) * x^8 modulo x^8 + x^2 + x + 1. |
| PecPolynomial.BurstErrorsDetected | ltc6803.c:257-296 | Errors confined to any 8 consecutive bits of message and code are detected. |
| Pec.AppendedCodeGivesZero | ltc6803.c:257-296 | Message and appended byte give code 0 if and only if the byte is the message's code. |
| Pec.EvenWeight | ltc6803.c:257-296 | Message and code together have an even number of one bits. |
| Pec.OddErrorsDetected | ltc6803.c:204-209 | An odd number of flipped bits in message and code is detected. |
| Pec.OneByteDetected | ltc6803.c:257-296 | Messages that differ in one byte have different codes. |
| Pec.StepUndone | ltc6803.c:280-287 | One turn of the bit loop is a bijection, with its inverse. |
| Pec.Pec8Calc | ltc6803.c:257-296 | The nested loops compute the specified code. |
| Cells.UnpackInvertsPack | ltc6803.c:211-224 | The twelve readings unpacked from 18 bytes are r if and only if the bytes are r packed. |
| Cells.Unpack | ltc6803.c:211-224 | In bytes: cell 2h is 1.5 mV for each step above 512 of byte 3h and the low half of the next, cell 2h + 1 of the high half and the byte after; so 18 bytes that pack n steps of 1.5 mV give n steps back. |
| Cells.VoltsOfSteps | ltc6803.c:218-223 | The voltage of the reading that stands for n steps of 1.5 mV. |
| PowerControl.OvercurrentLatch | current_monitor.c:106-116 | Once the interrupt has fired, at any point of any run, both switches are off at the end of every update that begins later. |
| PowerControl.AlertInTimeIff | power.c:52-80 | For every state inside an update: the update that the interrupt falls into ends with discharge off, however it goes on, if and only if it was not about to turn on, or is shutting down. |
| PowerControl.AlertCanComeTooLate | power.c:54-80 | A reachable state in which the interrupt comes too late for its own update. |
| PowerControl.NeverBothOn | power.c:76-100 | In every run discharge and precharge are not both on at the end of an update or between updates. |
| PowerControl.ShutdownLatch | power.c:103-122 | Shutdown never reverts, and implies power and discharge off at the end of every update. |
| PowerLaws.SwitchesAfterUpdate | power.c:52-123 | An undisturbed update ends with discharge on if and only if it is enabled, there is no fault and no short, the output is up or its time is over, and nothing shuts down; with precharge on if and only if all but the output's coming up holds, shutdown or not. In sensors, pads, times and configuration. |
| PowerLaws.ShutdownAfterUpdate | power.c:94-122 | In the same terms, when an undisturbed update ends in shutdown, and when the power switch is on after it. |
| PowerLaws.FlagsAfterUpdate | power.c:52-101 | The faults, the precharge and its start, and the released button after it; the event and what enables discharge stay. |
| PowerLaws.TimerAfterUpdate | power.c:103-121 | The shutdown timer and its start after it. |
| PowerLaws.InitialIs | power.c:20-46 | For each combination of button, charger, alarm and USB: the event, whether discharge is enabled, and the power switch. |
| PowerLaws.OnlyTheButtonTurnsOn | power.c:39-45 | In every run from a start by charger, alarm or USB, discharge and precharge are never on. |
| PowerControl.TurnsOnIff | power.c:39-45 | Some run from a start turns discharge on if and only if the start was by the button or by no source. |
| PowerLaws.AlertIs | current_monitor.c:106-116 | The interrupt clears two flags and adds one fault, and changes nothing else. |
| PowerLaws.MonitorDisables | current_monitor.c:84-88 | The monitor's first statement when it finds too much current. |
| PowerLaws.MonitorSwitchesOff | current_monitor.c:84-88 | The next: discharge off. |
| PowerLaws.MonitorRecords | current_monitor.c:84-88 | The last two: the fault is added to those that were there. |
| PowerLaws.SetFaultIs | faults.c:6-9 | Setting a fault keeps the others. |
| PowerControl.FaultRecordedIff | faults.c:6-9 | The interrupt's fault bit stays set in every continuation if and only if the interrupt does not fall between a load and a store of the faults byte. |
| PowerControl.FaultCanBeLost | analog.c:69 | A run from start-up in which the interrupt falls between the load and the store of the board temperature fault, and its bit is gone. |
| PowerSteps.RunKeepsInv | power.c:48-123 | The invariant behind these, over every run of statements and interrupts. |
| PowerSteps.UpdatedReached | power.c:48-123 | The statements of an undisturbed update lead to the state that the class is proved to reach. |
| PowerControl.PowerController.PowerUpdate | power.c:48-123 | The routine on its static variables and pads reaches the state whose every field the four laws above give. |
| PowerControl.PowerController.CurrAlert | power.c:130-134 | The handler's effect, field by field: disabled, discharge off, fault recorded, all else as it was. |
| PowerControl.PowerController.constructor | power.c:20-46 | The power-on event, whether discharge is enabled, and the power switch, by button, charger, alarm and USB. |
| Firmware.UploadSucceedsIff | fw_updater.c:12-28 | After an erase, a list of chunks is accepted if and only if, wherever two meet, the earlier leaves the halfword erased or the later clears it. |
| Firmware.DisjointChunksMakeTheImage | fw_updater.c:12-28 | Disjoint chunks are all accepted and leave their words in place and the rest of the region erased. |
| Firmware.NothingIsReprogrammed | fw_updater.c:18-19 | When one of several disjoint chunks is written, every halfword it goes to is still erased. |
| Firmware.EveryByteArrives | fw_updater.c:18-19 | The same by byte and address, low byte first. |
| Firmware.OrderDoesNotMatter | fw_updater.c:12-28 | Disjoint chunks in any order leave the same memory. |
| Firmware.OutsideIsUntouched | fw_updater.c:7-10 | For chunks inside the region, nothing outside it, from 0x08018000 to the bootloader, changes, whether the writes succeed or not. |
| Firmware.WriteChangesIff | fw_updater.c:18-22 | A halfword changes if and only if the chunk has another word for it and all words up to it are accepted. |
| Firmware.RefusedWriteIsPrefix | fw_updater.c:18-22 | A write that fails has stopped at a halfword that was neither erased nor to become 0, with exactly the words before it in place. |
| Firmware.SparesOutsideIff | fw_updater.c:12-28 | A chunk leaves everything outside the region alone, whatever the memory holds, if and only if its words out there are all 0xFFFF. |
| Firmware.RegionIsNotChecked | fw_updater.c:12-19 | A chunk that the write accepts and that programs the bootloader's first halfword, if that is erased. |
| Firmware.RetransmissionSucceedsIff | fw_updater.c:19-22 | A chunk is accepted twice if and only if it has only the words 0x0000 and 0xFFFF. |
| Firmware.Updater.WriteFirmware | fw_updater.c:12-28 | Success means that byte i of the data is at 0x08018000 + offset + i, an odd length taking one byte more, and every other byte of the memory is as it was; otherwise the words before the first refused one are there. The system lock is released only on success. |
| Firmware.Updater.EraseNewFirmware | fw_updater.c:30-46 | Every byte from 0x08018000 up to 0x08030000 becomes 0xFF, and no other changes. |

## Left out

- Flash errors without a reboot: primitives succeed unless the halfword is already programmed. Sticky error flags and time-outs of the flash controller are not modelled.
- Torn halfwords and partly erased pages: a power loss falls between two primitives.
- Flash.Legal: the hardware's rule for programming is that of the STM32F3 flash controller; the driver code shows only its status.
- EepromEmulation.Eeprom: flash is an array of slots, addressed by the firmware's byte addresses. The loops inside `EE_Init`, `EE_PageTransfer` and `EE_VerifyPageFullWriteVariable` are methods of their own, and the two mirror-image branches of `EE_Init` are one method with the page as a parameter.
- ConfigStore.Config.WriteField: for addr + size up to the size of the struct; beyond it the source overwrites whatever follows in memory. The limits on the three float fields are an arbitrary function of the bytes and the RAM, and the message to the current monitor is left out.
- ConfigStore.Config.Init: is about images that a run of writes, boots and power losses can reach, not about arbitrary flash contents.
- ConfigStore.Config.LoadDefaults: the default values are a parameter.
- StoreTheorems.NeverFull: is about runs that never leave two valid pages; those that do are formatted.
- Link.PacketReceiver.ProcessByte: excludes the bytes with which the receiver would write or read past its buffer; `OverrunIff` says that declared lengths above 2048 lead there.
- PacketSpec.Step: a write past the receive buffer, which a declared length above 2048 leads to, changes nothing here.
- `crc16` is an arbitrary function of the payload, and the handlers behind `process_packet` only receive it.
- The timeout thread runs once (`comm_usb.c:435-438`), so a tick is an event of the environment.
- Ring.InOrderAlways: the producer's store, increment and wrap are one step. Time slicing is off (`chconf.h:84`) and neither thread blocks between them; the CAN reader has the higher priority.
- CAN frame contents, event signalling between the threads, and sending over USB and CAN.
- Crc: configurations with polynomial sizes other than 16 and 32, and builds without the bitwise form or the tables.
- The packet error code is computed and never used (`ltc6803.c:206-225`), so nothing is claimed about voltages after a bad one.
- SPI, I2C and ADC transfers; sensor readings, pads and the system time are inputs. Time does not wrap.
- PowerControl.PowerController.PowerUpdate: is the undisturbed routine, with its blocks as methods; interrupts are the subject of PowerSteps. The branch for an unset `precharged` flag inside the enabled branch (`power.c:87-91`) cannot be taken.
- `power_enable_discharge` and the functions that clear faults are called by no code of the repository, and are not actions of the model.
- Firmware.Updater.WriteFirmware: for even offsets inside the program memory; an odd offset is a misaligned access of the processor, and one that wraps the address, like unlocking the flash, is not modelled. Erasing always succeeds.
- `fw_updater_jump_bootloader`: stack and register manipulation.
- Charger and balancing control, state of charge, analog conversions, LEDs, buzzer, clock, console, USB descriptors: float control, formatting and hardware set-up.
- The rest of ChibiOS.
