# Verified model of the Ardwiino adaptor firmware

This project models, in Dafny, the parts of the guitar adaptor's firmware and of its vendored LUFA library that carry
state or arithmetic worth a proof, and proves properties of them. `dafny verify dfyconfig.toml` checks everything.

Each component has the same shape. A function gives the next state and the outputs for one step (`Step`, `Handle`, `Do`,
...). Where the firmware changes things step by step, a class holds the firmware's own variables and its methods, loops
included, are proved to change them exactly as the function says. The properties are lemmas about the function, so they
hold of the methods.

| files | what they model |
|---|---|
| `Words.dfy`, `Flash.dfy`, `PageBuffer.dfy` | bytes and words; AVR flash with its temporary page buffer behind the bootloader API |
| `HexParser.dfy`, `HexBootloader.dfy`, `HexStream.dfy`, `HexFraming.dfy`, `HexRecords.dfy`, `HexExtended.dfy`, `HexImage.dfy` | the Intel HEX bootloader: parser, class, properties of every stream, record framing, the machine over records, extended addresses, image loading |
| `Dfu.dfy`, `DfuBootloader.dfy`, `DfuRange.dfy`, `DfuPartial.dfy`, `DfuEeprom.dfy`, `DfuSecure.dfy`, `DfuCommands.dfy` | the DFU bootloader: requests, class, flash ranges, downloads that break off, EEPROM ranges, secure mode, the commands by the bytes on the wire |
| `RingBuffer.dfy`, `RingSchedule.dfy` | the ring buffer: used by one thread, and by two whose steps interleave |
| `Mpu.dfy`, `MpuDriver.dfy`, `MpuCoherence.dfy`, `MpuInterrupts.dfy`, `MpuFaults.dfy`, `MpuEffects.dfy`, `MpuFirmware.dfy` | the MPU6050 driver on a bus that may fail: functions, class, register cache, interrupts without and with faults, register values, firmware load |
| `DmpPacket.dfy` | motion processor packets and the quaternion check |
| `Crc.dfy`, `CrcPolynomial.dfy`, `Atan2.dfy` | the identifier's CRC, and as a remainder of polynomials; the 16-bit arctangent |
| `ConfigTransfer.dfy`, `LcdEscape.dfy` | configuration transfer in blocks; the LCD bridge's escape code |

The main results:

- **HEX bootloader.** For every image of even length below the boot section and every split into even-sized data
  records, the loader stops, and the flash ends up with the image exactly if the last page is not a partial one whose
  address range the end-of-file record names, or is blank anyway. For every sequence of characters and USB
  reconfigurations the parser, character by character, does what a machine over whole records does: same flash
  operations, addresses, open page and stop. Page writes go to pages erased since their last write and the boot section
  never changes; junk characters do not matter.
- **DFU bootloader.** A program command and its payload write exactly the given range, padded to whole pages, or as many
  whole pages as came. Reading the range back returns the payload exactly if it has fewer than 65536 bytes and an even
  number of them, and each byte lies in a page-aligned range below the boot section or was in the flash already; for the
  EEPROM, exactly if it has fewer than 65536 bytes. A range in a bank chosen before it behaves the same. A request
  unlocks a locked device exactly if it is the chip erase command, which erases the whole application. In secure mode
  two devices that differ only in application flash cannot be told apart, for ever.
- **Ring buffer.** First in, first out under every interleaving of the non-atomic steps of a producer and a consumer.
- **MPU6050 driver.** After initialisation the cached ranges, filter and rate equal the device's registers over every
  sequence of calls, whichever transfers fail, and so does the pin unless a call turns its level over. What each call
  leaves in the device is stated in register values. The interrupt register equals its cache over a session exactly if
  every FIFO reset in it is harmless, which is stated in terms of the transfers that fail. A zero return of the firmware
  load means the image is in the device even if writes are corrupted on the way.
- **Configuration transfer.** What is read back is what was written exactly if every block that had to change was sent;
  on the Pico, before the last time the final block was.
- **Arithmetic.** The CRC is the remainder of a division of polynomials over GF(2) and affine, and tells apart
  identifiers that differ within four bytes and no better; the arctangent never overflows, stays in the vector's octant,
  depends on the direction only and is within 1.5 units of the polynomial it approximates.

Inputs that come from outside are parameters: characters and control requests from the host, received bytes, the outcome
of every bus transfer, the registers a device reset leaves. The page size, the start of the boot section and the size of
the flash are the fields of `Flash.Geometry`.

Where the code and a document disagree the model follows the code. DFU CLRSTATUS resets the status but not the state,
unlike section 6.1.2 of the USB Device Firmware Upgrade specification 1.1. `mpu_set_int_level` is documented as setting
the interrupt level but changes only the cache. `mpu_set_sample_rate` is documented for 4 Hz to 1 kHz but takes any rate
and limits it. The comment on starting the application asks for a valid application; the code leaves the bootloader by a
jump only if the application's first word is blank. A DFU flash range of an odd number of bytes is transferred without
its last byte, and one of 65536 bytes not at all.

## Model

| member | source | states |
|---|---|---|
| Flash.FlashMemory.ErasePageAt | lib/lufa/Bootloaders/Printer/BootloaderAPI.c:47-58 | the in-place erase is the erase operation, buffer cleared, nothing else changed |
| Flash.FlashMemory.WritePageAt | lib/lufa/Bootloaders/Printer/BootloaderAPI.c:60-71 | the in-place write programs the buffer's words into one page and clears the buffer |
| Flash.FlashMemory.Fill | lib/lufa/Bootloaders/Printer/BootloaderAPI.c:73-76 | a fill loads one word of the buffer, once |
| Flash.BootSectionUntouched | lib/lufa/Bootloaders/Printer/BootloaderAPI.c:38-71 | no sequence of operations changes flash from the boot section up |
| HexBootloader.Bootloader.Flush | lib/lufa/Bootloaders/Printer/BootloaderPrinter.c:214-230 | a dirty page is written exactly when the address has left it |
| HexBootloader.Bootloader.ParseIntelHEXByte | lib/lufa/Bootloaders/Printer/BootloaderPrinter.c:238-274 | one character moves parser and flash to the specified next state |
| HexBootloader.Bootloader.TakeByte | lib/lufa/Bootloaders/Printer/BootloaderPrinter.c:276-369 | one complete byte does, in each of the parser's states |
| HexBootloader.Bootloader.TakeDataByte | lib/lufa/Bootloaders/Printer/BootloaderPrinter.c:300-348 | a data byte does as specified; HexRecords.ParserRefinesRecords and HexExtended.ExtendedRecordFed say what that is for the guard and the extended addresses |
| HexBootloader.Bootloader.StoreWord | lib/lufa/Bootloaders/Printer/BootloaderPrinter.c:324-337 | a data word erases a new page, fills, advances and flushes, in that order |
| HexBootloader.Bootloader.Receive | lib/lufa/Bootloaders/Printer/BootloaderPrinter.c:381-401 | the main loop feeds a packet character by character |
| HexBootloader.Bootloader.ConfigurationChanged | lib/lufa/Bootloaders/Printer/BootloaderPrinter.c:467-478 | a new USB configuration is the reconfiguration event: the parser state is reset, nothing else |
| HexStream.StreamDiscipline | lib/lufa/Bootloaders/Printer/BootloaderPrinter.c:214-334 | for every sequence of characters and USB reconfigurations from power-on: page writes are aligned and to blank pages erased since their last write, no word is filled in the boot section, and the boot section never changes |
| HexStream.RunTracks | lib/lufa/Bootloaders/Printer/BootloaderPrinter.c:238-369 | the invariant behind it: a dirty page has been erased and not written since |
| HexStream.ErasedIsBlank | lib/lufa/Bootloaders/Printer/BootloaderAPI.c:47-71 | a page erased and not rewritten is all 0xFF, whatever happened to other pages in between |
| HexStream.JunkIgnored | lib/lufa/Bootloaders/Printer/BootloaderPrinter.c:240-265 | deleting every character that is neither ':' nor an upper-case digit changes no flash operation and not the stop flag |
| HexParser.CharactersRun | lib/lufa/Bootloaders/Printer/BootloaderPrinter.c:389-396 | a run over events without reconfigurations is the run over their characters |
| HexFraming.ByteStepAddressed | lib/lufa/Bootloaders/Printer/BootloaderPrinter.c:276-348 | one byte: the boot section guard cuts the record off exactly at the first data byte addressed there |
| HexRecords.ParserRefinesRecords | lib/lufa/Bootloaders/Printer/BootloaderPrinter.c:214-369 | for every sequence of characters and USB reconfigurations from power-on the parser and a machine over the bytes of records have the same flash operations, base address, kept byte, open page, dirty flag and stop flag; a type 02 word sets the base to 16 times it, a type 04 word to 65536 times it, reduced to the address width |
| HexRecords.StreamFramed | lib/lufa/Bootloaders/Printer/BootloaderPrinter.c:241-363 | in every state reached from power-on: without a line the parser waits, a line is dropped exactly when one of its data bytes comes at an address in the boot section, and otherwise state, count, type, checksum and address are those of the bytes received since the ':'; in the data state at least one byte remains |
| HexRecords.StopsExactlyAtEndOfFile | lib/lufa/Bootloaders/Printer/BootloaderPrinter.c:350-363 | the loader is stopped by exactly the character that completes an end-of-file record whose bytes add up to zero, in a line not dropped by the boot section guard |
| HexExtended.ExtendedRecordFed | lib/lufa/Bootloaders/Printer/BootloaderPrinter.c:300-348 | the text of an extended address record, type 02 or 04: the next line's addresses count from its word times 16 or times 65536, reduced to the address width |
| HexExtended.SegmentExample | lib/lufa/Bootloaders/Printer/BootloaderPrinter.c:336-339 | the record `:020000021000EC` on a part with 128 KB: the next line's counter starts at 0x100 |
| HexImage.WordStored | lib/lufa/Bootloaders/Printer/BootloaderPrinter.c:324-337 | a data word extends the stored part of the image by two bytes, committing the page it completes |
| HexImage.DataRecordFed | lib/lufa/Bootloaders/Printer/BootloaderPrinter.c:265-353 | the text of a data record extends the stored part of the image by its bytes |
| HexImage.EndRecordFed | lib/lufa/Bootloaders/Printer/BootloaderPrinter.c:350-363 | the text of an end-of-file record flushes by its address and stops the loader |
| HexImage.ImageProgrammed | lib/lufa/Bootloaders/Printer/BootloaderPrinter.c:214-369 | text of an image in, image in flash out, the rest of its last page 0xFF, other pages unchanged; or the last partial page lost |
| HexImage.ImageLoadedExactlyWhen | lib/lufa/Bootloaders/Printer/BootloaderPrinter.c:214-369 | the image is in flash if and only if its length is whole pages, or the end-of-file address is in another page, or the partial page is blank anyway |
| HexImage.TwoByteImageIsLost | lib/lufa/Bootloaders/Printer/BootloaderPrinter.c:214-230 | the failing case occurs: a two-byte image with its end-of-file record at address 0 never reaches the flash |
| HexImage.UsualFileLoaded | lib/lufa/Bootloaders/Printer/BootloaderPrinter.c:214-369 | an image of at least a page with its end-of-file record at address 0, with any junk between the digits, is loaded and the loader stops |
| DfuBootloader.Bootloader.ControlRequest | lib/lufa/Bootloaders/DFU/BootloaderDFU.c:253-576 | one class request moves the bootloader to the specified state and sends the specified bytes |
| DfuBootloader.Bootloader.DnloadRequest | lib/lufa/Bootloaders/DFU/BootloaderDFU.c:270-417 | command packet, command, then firmware, with the pending exit handled first |
| DfuBootloader.Bootloader.ProgramFlash | lib/lufa/Bootloaders/DFU/BootloaderDFU.c:324-383 | the flash loop computes the specified programming, or stops when unplugged |
| DfuBootloader.Bootloader.ProgramEeprom | lib/lufa/Bootloaders/DFU/BootloaderDFU.c:385-406 | the EEPROM loop computes the contents and start address that DfuEeprom.ProgramBytesRange characterises |
| DfuEeprom.ProgramBytesRange | lib/lufa/Bootloaders/DFU/BootloaderDFU.c:385-406 | the EEPROM loop writes the range as far as the payload lasts, wrapping at 16 bits, and changes no other byte |
| DfuBootloader.Bootloader.UploadRequest | lib/lufa/Bootloaders/DFU/BootloaderDFU.c:418-516 | what an upload sends in every state, and the state after it |
| DfuBootloader.Bootloader.SendFlash | lib/lufa/Bootloaders/DFU/BootloaderDFU.c:453-484 | the read loop sends the words of the range in order |
| DfuBootloader.Bootloader.SendEeprom | lib/lufa/Bootloaders/DFU/BootloaderDFU.c:488-506 | the EEPROM read loop sends the bytes that DfuEeprom.EepromBytesAt characterises and moves the start address behind them |
| DfuEeprom.EepromBytesAt | lib/lufa/Bootloaders/DFU/BootloaderDFU.c:488-506 | byte i of what is sent is the EEPROM byte i places behind the start, wrapping at 16 bits |
| DfuBootloader.Bootloader.BootloaderCommand | lib/lufa/Bootloaders/DFU/BootloaderDFU.c:609-652 | the secure mode filter and the dispatch of commands |
| DfuBootloader.Bootloader.MemProgCommand | lib/lufa/Bootloaders/DFU/BootloaderDFU.c:674-698 | a program command loads the range, erases its first page and starts the download |
| DfuBootloader.Bootloader.MemReadCommand | lib/lufa/Bootloaders/DFU/BootloaderDFU.c:704-742 | a read command loads the range; the blank check finds the first byte that is not 0xFF |
| DfuBootloader.Bootloader.EraseApplication | lib/lufa/Bootloaders/DFU/BootloaderDFU.c:788-791 | the erase loop goes through every application page |
| DfuBootloader.Bootloader.WriteCommand | lib/lufa/Bootloaders/DFU/BootloaderDFU.c:747-796 | the specified start application and chip erase; DfuCommands.StartApplication, DfuCommands.ChipErase and DfuSecure.UnlocksExactlyWhen say what they do |
| DfuBootloader.Bootloader.ReadCommand | lib/lufa/Bootloaders/DFU/BootloaderDFU.c:801-845 | the information bytes, and the address error for any other index |
| DfuRange.ProgramWordsRange | lib/lufa/Bootloaders/DFU/BootloaderDFU.c:337-380 | the page-by-page loop is a plain range write with the last page padded |
| DfuRange.MisalignedWordsIgnored | lib/lufa/Bootloaders/DFU/BootloaderDFU.c:337-380 | from a start that is not page-aligned the loop programs nothing |
| DfuRange.ProgramDevice | lib/lufa/Bootloaders/DFU/BootloaderDFU.c:324-383 | erase and loop together, byte by byte of flash, for every start and length |
| DfuRange.DnloadProgramsRange | lib/lufa/Bootloaders/DFU/BootloaderDFU.c:311-383 | a program command with a whole payload, on an unlocked device, programs the range, leaves other pages and the EEPROM alone and never reaches the boot section |
| DfuPartial.DnloadCutShort | lib/lufa/Bootloaders/DFU/BootloaderDFU.c:337-351 | with a payload that breaks off: its whole pages are programmed, the page it broke off in is left erased, the download stays open |
| DfuPartial.DnloadWithoutFirmware | lib/lufa/Bootloaders/DFU/BootloaderDFU.c:311-316 | a program command that is the whole data stage erases the first page and returns to idle |
| DfuPartial.PendingExitFirst | lib/lufa/Bootloaders/DFU/BootloaderDFU.c:273-281 | while an exit is pending a download repeats the last command, then goes on as if none were |
| DfuRange.UploadReturnsRange | lib/lufa/Bootloaders/DFU/BootloaderDFU.c:441-511 | a read command and an upload send the whole words of the range and change no memory |
| DfuRange.ProgramThenReadSends | lib/lufa/Bootloaders/DFU/BootloaderDFU.c:311-511 | for any start, end and parity: programming and reading back sends the whole words of the range, each byte the payload's if the range is page-aligned and the byte below the boot section, else what was there |
| DfuRange.ProgramThenRead | lib/lufa/Bootloaders/DFU/BootloaderDFU.c:311-511 | an even, page-aligned range below the boot section, shorter than a bank, comes back as it was sent |
| DfuRange.RoundTripExactlyWhen | lib/lufa/Bootloaders/DFU/BootloaderDFU.c:311-511 | the round trip returns the payload if and only if the range has fewer than 65536 bytes and an even number, and each byte is in a page-aligned range below the boot section or was in the flash already |
| DfuRange.WholeBankIsLost | lib/lufa/Bootloaders/DFU/BootloaderDFU.c:321-327 | the failing case occurs: programming a whole bank of an AT90USB1287 sends nothing back |
| DfuRange.BlankCheckTells | lib/lufa/Bootloaders/DFU/BootloaderDFU.c:430-740 | the blank check reports an error if and only if some application byte is not 0xFF, and the next upload sends the first such address |
| DfuEeprom.DnloadProgramsEeprom | lib/lufa/Bootloaders/DFU/BootloaderDFU.c:385-406 | a program command for the EEPROM writes the range as far as the payload lasts and leaves the flash alone |
| DfuEeprom.EepromRoundTripExactlyWhen | lib/lufa/Bootloaders/DFU/BootloaderDFU.c:385-506 | programming a range of EEPROM and reading it back returns the payload if and only if it has fewer than 65536 bytes |
| DfuSecure.EraseAll | lib/lufa/Bootloaders/DFU/BootloaderDFU.c:788-791 | chip erase makes every application byte 0xFF and touches no other |
| DfuSecure.LockedStep | lib/lufa/Bootloaders/DFU/BootloaderDFU.c:270-652 | one request to two locked devices sends the same bytes, and if it unlocks them their application is blank and they are in the same state |
| DfuSecure.SecureSession | lib/lufa/Bootloaders/DFU/BootloaderDFU.c:418-796 | two locked devices that differ only in application flash answer every request sequence with the same bytes, before and after unlocking |
| DfuSecure.UnlockedOnlyByErasing | lib/lufa/Bootloaders/DFU/BootloaderDFU.c:609-796 | a device that ends up unlocked kept its flash until one request, which erased the whole application |
| DfuSecure.UnlocksExactlyWhen | lib/lufa/Bootloaders/DFU/BootloaderDFU.c:609-796 | a request unlocks a locked device if and only if it is a download whose packet has command 4 and leaves parameters 0 and 255 |
| DfuSecure.StaysUnlocked | lib/lufa/Bootloaders/DFU/BootloaderDFU.c:792-795 | nothing locks a device again |
| DfuCommands.ChipErase | lib/lufa/Bootloaders/DFU/BootloaderDFU.c:787-795 | the packet 4, 0, 255 to a device locked or not: every application byte becomes 0xFF, it is unlocked, nothing else changes |
| DfuCommands.LockedRefuses | lib/lufa/Bootloaders/DFU/BootloaderDFU.c:611-631 | a locked device refuses every command but chip erase and reading information: memory stays, and the host reads status 3, state 10 |
| DfuCommands.StatusSent | lib/lufa/Bootloaders/DFU/BootloaderDFU.c:517-566 | the bytes GETSTATUS and GETSTATE send for every state and status, which change nothing |
| DfuCommands.StatusCleared | lib/lufa/Bootloaders/DFU/BootloaderDFU.c:543-573 | clearing the status leaves the state, an abort leaves the status |
| DfuCommands.InformationRead | lib/lufa/Bootloaders/DFU/BootloaderDFU.c:801-845 | for every index of both kinds of information: the byte the next upload sends, or status 8 and state 10 |
| DfuCommands.StartApplication | lib/lufa/Bootloaders/DFU/BootloaderDFU.c:749-786 | what a start command leaves: the pending exit, the jump address, the watchdog, and the loader stopped exactly if the application's first word is blank |
| DfuCommands.BankSelected | lib/lufa/Bootloaders/DFU/BootloaderDFU.c:646-649 | the packet 6, 3, 0, b selects bank b and does nothing else |
| DfuCommands.BankRoundTrip | lib/lufa/Bootloaders/DFU/BootloaderDFU.c:311-649 | select a bank, program a range of it, read it back: the payload comes back if and only if the range has an even number of bytes below 65536 and each lies in a page-aligned range below the boot section or was in the flash already |
| DfuCommands.BankProgrammed | lib/lufa/Bootloaders/DFU/BootloaderDFU.c:324-383 | byte i of the payload is in the flash at 65536 times the bank plus start plus i |
| DfuCommands.UnknownCommand | lib/lufa/Bootloaders/DFU/BootloaderDFU.c:632-845 | any other command or parameter does nothing to an unlocked device |
| DfuCommands.DownloadEnds | lib/lufa/Bootloaders/DFU/BootloaderDFU.c:283-316 | a download without a data stage ends a download and does nothing else |
| DfuCommands.PacketMissing | lib/lufa/Bootloaders/DFU/BootloaderDFU.c:283-290 | a data stage that never comes changes nothing but the byte count |
| DfuCommands.UploadUnasked | lib/lufa/Bootloaders/DFU/BootloaderDFU.c:427-440 | an upload nothing asked for sends the blank check's address after an error, else the last response |
| DfuCommands.UploadAsked | lib/lufa/Bootloaders/DFU/BootloaderDFU.c:441-511 | an upload a read command asked for goes back to idle, with the bytes sent and the start address after it by memory |
| RingBuffer.InsertAppends | lib/LightweightRingBuff.h:155-162 | inserting appends one byte to the contents |
| RingBuffer.RemoveTakesOldest | lib/LightweightRingBuff.h:189-198 | removing takes the oldest byte off the contents |
| RingBuffer.Buffer.Insert | lib/LightweightRingBuff.h:155-162 | the in-place insert appends, keeping the pointers in the buffer |
| RingBuffer.Buffer.Remove | lib/LightweightRingBuff.h:189-198 | the in-place remove returns the oldest byte and keeps the others in order |
| RingBuffer.Buffer.Peek | lib/LightweightRingBuff.h:210-212 | peeking returns the oldest byte and changes nothing |
| RingBuffer.Buffer.Clear | lib/LightweightRingBuff.h:171-180 | clearing empties the buffer |
| RingBuffer.Buffer.GetCount | lib/LightweightRingBuff.h:110-116 | the count is the number of unread bytes |
| RingBuffer.Buffer.IsFull | lib/LightweightRingBuff.h:126-128 | full exactly when the contents fill the buffer |
| RingBuffer.Buffer.IsEmpty | lib/LightweightRingBuff.h:142-144 | empty exactly when nothing is unread |
| RingSchedule.StoreHitsFreeSlot | lib/LightweightRingBuff.h:157-157 | the store of an insert never hits a slot still to be read, however the threads interleave |
| RingSchedule.StepKeepsInv | lib/LightweightRingBuff.h:126-198 | every step of either thread keeps pointers, count and unread bytes consistent |
| RingSchedule.FifoUnderEverySchedule | lib/LightweightRingBuff.h:126-198 | under every schedule from a cleared buffer of any size the bytes removed are a prefix of those inserted, the count is completed inserts less completed removes and within the buffer, and an idle buffer holds the bytes in between |
| RingSchedule.InsertWithoutInterleaving | lib/LightweightRingBuff.h:155-162 | the producer's steps in a row are the sequential insert |
| RingSchedule.RemoveWithoutInterleaving | lib/LightweightRingBuff.h:189-198 | the consumer's steps in a row are the sequential remove |
| MpuDriver.Driver.Init | lib/mpu6050/inv_mpu.c:354-425 | initialisation in the source's order with its return codes, on any bus |
| MpuDriver.Driver.SetIntEnable | lib/mpu6050/inv_mpu.c:282-307 | the specified switch; MpuEffects.IntEnableSet and MpuEffects.IntEnableDirection say which bit is written, and when |
| MpuDriver.Driver.ResetFifo | lib/mpu6050/inv_mpu.c:755-809 | the sequence of register writes, ended by the first failure |
| MpuDriver.Driver.SetGyroFsr | lib/mpu6050/inv_mpu.c:842-871 | the gyro range, its write skipped when cached |
| MpuDriver.Driver.SetAccelFsr | lib/mpu6050/inv_mpu.c:905-934 | the accelerometer range, likewise |
| MpuDriver.Driver.SetLpf | lib/mpu6050/inv_mpu.c:976-1001 | the filter, likewise |
| MpuDriver.Driver.SetSampleRate | lib/mpu6050/inv_mpu.c:1022-1062 | the specified rate change; MpuEffects.RateSet gives the divider in numbers, RateSetWorking and RateLeavesLowPower the rest |
| MpuDriver.Driver.LpAccelMode | lib/mpu6050/inv_mpu.c:442-512 | entering and leaving low-power mode |
| MpuDriver.Driver.ConfigureFifo | lib/mpu6050/inv_mpu.c:1181-1215 | the FIFO's sensors, the interrupt and the restored setting on failure |
| MpuDriver.Driver.SetSensors | lib/mpu6050/inv_mpu.c:1235-1274 | power registers and the sensors cached, cleared on failure |
| MpuDriver.Driver.SetBypass | lib/mpu6050/inv_mpu.c:1427-1469 | bypass on or off, user control and pin registers |
| MpuDriver.Driver.SetIntLatched | lib/mpu6050/inv_mpu.c:1487-1504 | latching, its write skipped when cached |
| MpuDriver.Driver.SetDmpState | lib/mpu6050/inv_mpu.c:1624-1659 | turning the motion processor on and off |
| MpuDriver.Driver.WriteMem | lib/mpu6050/inv_mpu.c:1515-1536 | a memory write within one bank, refused asleep or across banks |
| MpuDriver.Driver.ReadMem | lib/mpu6050/inv_mpu.c:1547-1568 | a memory read, likewise |
| MpuDriver.Driver.LoadFirmware | lib/mpu6050/inv_mpu.c:1578-1617 | the write, read back and compare loop with its return codes |
| MpuCoherence.InitCoherent | lib/mpu6050/inv_mpu.c:354-425 | a successful initialisation makes cache and registers agree, whatever they held |
| MpuCoherence.CallCoherent | lib/mpu6050/inv_mpu.c:282-1659 | every call keeps ranges, filter and rate in agreement, whichever of its transfers fail; and the pin unless it turns the level over |
| MpuCoherence.CacheStaysCoherent | lib/mpu6050/inv_mpu.c:354-1659 | so over every sequence of calls ranges, filter and rate divider are as cached, and the pin register if no call turned its level over |
| MpuEffects.SettersTakeEffect | lib/mpu6050/inv_mpu.c:842-1062 | after any session a range, filter or rate setter that returns zero has put the requested value in the device, as a number, even when it skipped the write: the divider is the last that does not give more than the rate, limited to 4 to 1000 Hz; a rate that low-power mode serves leaves the divider alone |
| MpuEffects.PinSettersTakeEffect | lib/mpu6050/inv_mpu.c:1427-1504 | the same for the pin's setters, in a session that does not turn its level over |
| MpuCoherence.SetIntLevelCoherentExactlyWhen | lib/mpu6050/inv_mpu.c:1476-1479 | setting the interrupt level keeps the agreement if and only if the level does not change |
| MpuInterrupts.InitAgrees | lib/mpu6050/inv_mpu.c:354-425 | on a working bus initialisation succeeds with the interrupt register 0 |
| MpuInterrupts.CallAgrees | lib/mpu6050/inv_mpu.c:282-1659 | every call keeps the interrupt register equal to its cache and to none or the mode's own interrupt |
| MpuInterrupts.InterruptsStayInOrder | lib/mpu6050/inv_mpu.c:282-1659 | so over every sequence of calls on a working bus; and the motion processor is on only when loaded |
| MpuFaults.ResetMatchesExactlyWhen | lib/mpu6050/inv_mpu.c:755-809 | for every state and bus: after a FIFO reset the interrupt register equals its cache if and only if the reset was refused or failed at once with the two equal, or nothing was on, or it got through to its sixth transfer with the mode's own interrupt on |
| MpuFaults.ResetKeepsOrderExactlyWhen | lib/mpu6050/inv_mpu.c:755-809 | from a state in order: if and only if all sensors are off, interrupts are off, the first transfer fails, or none of the next five does |
| MpuFaults.EnableMatchesExactlyWhen | lib/mpu6050/inv_mpu.c:282-307 | switching interrupts never parts the two, and brings them together exactly when its write is made |
| MpuFaults.FaultLosesInterrupts | lib/mpu6050/inv_mpu.c:755-809 | data ready interrupts are lost, off in the device and on in the cache so that asking for them again writes nothing, exactly when one of transfers two to six of a reset fails and the first does not |
| MpuFaults.SetDmpStateMatchesExactlyWhen | lib/mpu6050/inv_mpu.c:1624-1659 | turning the motion processor on or off keeps the two equal if and only if the reset it ends with is harmless |
| MpuFaults.TurnOffMatchesExactlyWhen | lib/mpu6050/inv_mpu.c:1647-1657 | turning it off parts them exactly when switching the interrupt off fails and the next two transfers do not |
| MpuFaults.CallMatchesExactlyWhen | lib/mpu6050/inv_mpu.c:282-1659 | for every call and bus: a call keeps the two equal if and only if it does not reset the FIFO or the reset is harmless |
| MpuFaults.SessionMatchesExactlyWhen | lib/mpu6050/inv_mpu.c:282-1659 | so over every session the two are equal throughout if and only if every reset is harmless |
| MpuInterrupts.RateFrozenWhileOn | lib/mpu6050/inv_mpu.c:1022-1062 | no call made while the motion processor is on changes the rate divider |
| MpuEffects.GyroSet | lib/mpu6050/inv_mpu.c:842-871 | the register is 8 times the code of 250, 500, 1000 or 2000 degrees per second; any other request or a failure changes nothing |
| MpuEffects.AccelSet | lib/mpu6050/inv_mpu.c:905-934 | the same for 2, 4, 8 and 16 g |
| MpuEffects.LpfSet | lib/mpu6050/inv_mpu.c:976-1001 | the code, 1 to 6, of the highest cutoff not above the request |
| MpuEffects.RateSet | lib/mpu6050/inv_mpu.c:1022-1062 | on every bus a zero return outside low-power service means (divider + 1) times the limited request is at most 1000 and (divider + 2) times it more, and the cached rate is 1000 / (1 + divider) |
| MpuEffects.RateSetWorking | lib/mpu6050/inv_mpu.c:1044-1060 | on a working bus the divider so described, its rate, the filter of half that rate, and nothing else |
| MpuEffects.RateLeavesLowPower | lib/mpu6050/inv_mpu.c:1028-1043 | a rate of 0 or above 40 Hz asked for in low-power mode is set after a return to full power, in register values |
| MpuEffects.LatchedSet | lib/mpu6050/inv_mpu.c:1487-1504 | the pin register by its three bits, or nothing |
| MpuEffects.BypassSet | lib/mpu6050/inv_mpu.c:1427-1469 | user control and pin registers after each possible failure; the auxiliary bit is set exactly if bypass goes off with the compass in use |
| MpuEffects.IntEnableSet | lib/mpu6050/inv_mpu.c:282-307 | the bit written, 0x02 with the motion processor on and 0x01 without, when it is skipped, and what a failure leaves |
| MpuEffects.IntEnableDirection | lib/mpu6050/inv_mpu.c:282-307 | from agreement, a zero return means interrupts are on exactly if they were asked for |
| MpuEffects.ResetLeaves | lib/mpu6050/inv_mpu.c:755-809 | for every state and bus: all registers after a FIFO reset, by the number of its seven transfers that went through |
| MpuEffects.FifoConfigured | lib/mpu6050/inv_mpu.c:1181-1215 | on a working bus: the sensors kept, the return code, the control value, and interrupts on exactly if a sensor is asked for or low-power mode is on |
| MpuEffects.FifoRestored | lib/mpu6050/inv_mpu.c:1203-1210 | a failed reset restores the cached sensors |
| MpuEffects.FifoRefused | lib/mpu6050/inv_mpu.c:1185-1192 | nothing is done with the motion processor on or all sensors off |
| MpuEffects.SensorsSet | lib/mpu6050/inv_mpu.c:1235-1274 | clock and standby registers for every set of sensors, and what each failure leaves |
| MpuEffects.FullPower | lib/mpu6050/inv_mpu.c:448-456 | leaving low-power mode: power registers 0 and 0x07 |
| MpuEffects.LowPower | lib/mpu6050/inv_mpu.c:458-512 | entering it, directly or by a rate of 1 to 40 Hz: every register and cached value that changes, on a working bus |
| MpuEffects.DmpRefused | lib/mpu6050/inv_mpu.c:1624-1631 | no change and no firmware are refused |
| MpuEffects.DmpTurnedOn | lib/mpu6050/inv_mpu.c:1629-1646 | on a working bus: every register and cached value after turning the motion processor on |
| MpuEffects.DmpTurnedOff | lib/mpu6050/inv_mpu.c:1647-1657 | and after turning it off |
| MpuEffects.Initialised | lib/mpu6050/inv_mpu.c:354-425 | on a working bus, whatever was there before: every register and cached value after initialisation |
| MpuEffects.InitTells | lib/mpu6050/inv_mpu.c:354-425 | on every bus: which return code for which transfer that failed; three failures go unnoticed and the code -34 is never returned |
| MpuEffects.MemoryWorking | lib/mpu6050/inv_mpu.c:1515-1568 | memory access on a working bus: exactly those bytes, or refused asleep or across a 256-byte bank |
| MpuEffects.MemoryFails | lib/mpu6050/inv_mpu.c:1515-1568 | a failed transfer is reported and leaves the memory |
| MpuEffects.FirmwareSet | lib/mpu6050/inv_mpu.c:1578-1617 | the return code, the start address and the cached rate of a firmware load, by how its loop ended |
| MpuEffects.FirmwareCodes | lib/mpu6050/inv_mpu.c:1593-1606 | the loop's three failures and their codes, by chunks of 16 bytes |
| MpuFirmware.LoadFromLoads | lib/mpu6050/inv_mpu.c:1593-1606 | a loop that gets through has the rest of the image in memory and has touched nothing else |
| MpuFirmware.ZeroMeansLoaded | lib/mpu6050/inv_mpu.c:1578-1617 | a zero return means the whole image is in memory even if writes were corrupted; otherwise the loaded flag is as before |
| MpuFirmware.OnlyMismatchStops | lib/mpu6050/inv_mpu.c:1584-1606 | without failed transfers an awake chip is refused for a wrong comparison only, never for a bank boundary |
| MpuFirmware.LoadSucceedsExactlyWhen | lib/mpu6050/inv_mpu.c:1578-1617 | on a working bus the load succeeds if and only if nothing was loaded and the image is empty or fits the memory of an awake chip |
| DmpPacket.NormalIsExact | lib/mpu6050/inv_mpu_dmp_motion_driver.c:501-504 | the wrapping norm check accepts exactly the quaternions whose true sum of squares is in the window |
| DmpPacket.LengthMatchesFields | lib/mpu6050/inv_mpu_dmp_motion_driver.c:1079-1088 | the packet length computed on enabling is what the decoder consumes plus the gesture bytes, at most 32 |
| DmpPacket.DecodeOfEncode | lib/mpu6050/inv_mpu_dmp_motion_driver.c:1255-1309 | decoding the big-endian packet of any values returns them with the mask of sensors present, or reports a corrupt quaternion |
| DmpPacket.FieldsAt | lib/mpu6050/inv_mpu_dmp_motion_driver.c:1255-1309 | for any packet accepted: each field is the big-endian number at its place, by the features enabled |
| DmpPacket.Driver.EnableFeature | lib/mpu6050/inv_mpu_dmp_motion_driver.c:1079-1088 | enabling replaces mask and length, whatever was enabled before |
| DmpPacket.Driver.ParsePacket | lib/mpu6050/inv_mpu_dmp_motion_driver.c:1255-1309 | the parsing with its running index is the specified decoding |
| Crc.GenerateCrc32 | src/shared/rf/rf.c:32-43 | the nested loops compute the CRC, for an identifier of any length |
| CrcPolynomial.CrcIsDivision | src/shared/rf/rf.c:32-43 | there is a quotient: message times x^32 plus initial register times x^8n is the quotient times the generator of IEEE 802.3 section 3.2.9 plus the CRC, as polynomials over GF(2) |
| CrcPolynomial.ShiftsDivide | src/shared/rf/rf.c:34-41 | n steps of the inner loop divide the register times x^n by the generator |
| Crc.CrcDifference | src/shared/rf/rf.c:32-43 | the difference of two CRCs is the CRC of the difference |
| Crc.CrcAffine | src/shared/rf/rf.c:32-43 | the exclusive or of three CRCs is the CRC of the exclusive or |
| Crc.NearbyIdsDiffer | src/shared/rf/rf.c:32-43 | distinct identifiers that differ only within four consecutive bytes have different CRCs |
| Crc.FiveBytesCollide | src/shared/rf/rf.c:32-43 | and four is the limit: every identifier shares its CRC with one that differs from it in five bytes |
| Atan2.Ratio | lib/fxpt_math/fxpt_math.c:91-93 | the division is in range and never by zero, and has the sign of the ratio |
| Atan2.Unrotated | lib/fxpt_math/fxpt_math.c:122-127 | the polynomial's intermediates fit 16 bits and it stays within an eighth of a turn on the side of the ratio |
| Atan2.MulRounds | lib/fxpt_math/fxpt_math.c:69-80 | a Q15 product is the nearest integer to the exact one, and the lower of two |
| Atan2.AngleInOctant | lib/fxpt_math/fxpt_math.c:110-144 | the angle lies in each octant the vector lies in |
| Atan2.ZeroVector | lib/fxpt_math/fxpt_math.c:111-117 | the zero vector has angle 0 |
| Atan2.AxisAngle | lib/fxpt_math/fxpt_math.c:119-143 | on the axes the angle is exact |
| Atan2.DiagonalAngle | lib/fxpt_math/fxpt_math.c:111-143 | on the diagonals the angle is exact, the most negative coordinates included |
| Atan2.AngleOfScaledVector | lib/fxpt_math/fxpt_math.c:104-144 | scaling the vector up does not change the angle at all |
| Atan2.AngleAccurate | lib/fxpt_math/fxpt_math.c:110-144 | the angle is within 1.5 units of the octant's base plus or minus the polynomial of the exact ratio |
| ConfigTransfer.Reports.WriteConfig | src/shared/output/serial_handler.c:36-42 | a write report of block b stores its bytes from byte 28 b of the memory that starts with the configuration, beyond the configuration too, and changes no other |
| ConfigTransfer.Reports.ReadConfig | src/shared/output/serial_handler.c:87-95 | a read command answers with the report number and the bytes at its place, as many as the eight-bit size says, and changes nothing behind them |
| ConfigTransfer.AnswerFitsExactlyWhen | src/shared/output/serial_handler.c:88-93 | the answer fits the 64-byte buffer if and only if the command names a block, or the size past the end comes out below 64 modulo 256 |
| ConfigTransfer.AnswerIsBlock | src/shared/output/serial_handler.c:87-95 | for a command that names a block the answer is the block, the last one shorter |
| ConfigTransfer.PastTheEnd | src/shared/output/serial_handler.c:88-93 | both cases occur one command past the end: an empty answer for 150 bytes, an overrun for 160 |
| ConfigTransfer.BytesAfterWrites | src/avr/lib/eeprom/eeprom.c:82-84 | after any packets exactly the bytes of the blocks sent are the configuration's |
| ConfigTransfer.AnyOrderStores | src/avr/lib/eeprom/eeprom.c:82-84 | on the AVR any order with every block stores the configuration |
| ConfigTransfer.PicoStoresExactlyWhen | src/pico/lib/eeprom/eeprom.c:58-67 | on the Pico the flash holds the configuration if and only if every block that had to change came before the last time the final block was sent, or it was never sent and the flash held the configuration already |
| ConfigTransfer.ReadReturnsStore | src/shared/output/serial_handler.c:87-95 | the 50-byte blocks read put together are the store |
| ConfigTransfer.WriteThenRead | src/shared/output/serial_handler.c:38-95 | on the AVR what is read back is the configuration if and only if every block that had to change was sent, in any order; and every block has a command number |
| ConfigTransfer.PicoReadBackExactlyWhen | src/pico/lib/eeprom/eeprom.c:58-70 | on the Pico what is read back is the configuration if and only if what was sent stored it in flash |
| ConfigTransfer.LastBlockFirstIsLost | src/pico/lib/eeprom/eeprom.c:58-67 | the failing case occurs: two blocks sent last block first |
| LcdEscape.DecodeConcat | lib/lufa/Projects/SerialToLCD/SerialToLCD.c:100-130 | how the stream is split across drain loops does not matter |
| LcdEscape.DecodeOfEncode | lib/lufa/Projects/SerialToLCD/SerialToLCD.c:100-130 | decoding the encoding of any data and commands gives them back with no escape pending |
| LcdEscape.EncodeOfDecode | lib/lufa/Projects/SerialToLCD/SerialToLCD.c:100-130 | re-encoding what any stream displayed gives the stream back, up to an escape still pending |
| LcdEscape.Bridge.Drain | lib/lufa/Projects/SerialToLCD/SerialToLCD.c:100-130 | the drain loop empties the buffer and displays its decoding |
| LcdEscape.Bridge.Serve | lib/lufa/Projects/SerialToLCD/SerialToLCD.c:87-131 | over any number of iterations, with or without a byte received, the display gets the decoding of the bytes that came |

## Left out

- HEX files outside the image theorem: address gaps, records that do not start at page 0, odd byte counts and extended
  address records; there the code fills words before it changes pages and joins the bytes of odd records with what came
  before. The properties of every stream cover them.
- Flash hardware is modelled as programming that clears bits, a temporary buffer whose words can be
  loaded once until erase or write clears it, and an unloaded word of 0xFFFF; page sizes are powers of two up to 256.
- DFU hardware control flow: endpoint waits, filler bytes and stalls. The payload is the byte sequence behind the
  fillers, and ends early when the device is unplugged. Jumping to the application, watchdog and boot key are flags.
- RingBuffer_InitBuffer as a reset, since it does not set the count, and clearing while an insert or a remove is under
  way.
- MPU6050: reading sensors, bias registers, self test, the MPU6500 variant and the compass on the secondary bus; the
  FIFO register as a mirror of its cache, which configuring the FIFO to nothing does not write; a multi-byte register
  write either arrives or does not; delays; a null firmware pointer.
- MpuCoherence.CacheStaysCoherent: the pin register is not followed once a call of `mpu_set_int_level` has turned the
  level over in the cache; SetIntLevelCoherentExactlyWhen says why.
- DmpPacket.Driver.ParsePacket: the FIFO reset after a corrupt packet, timestamps and the gesture callbacks.
- Atan2.AngleAccurate: accuracy is against the polynomial the code is built on, not against the true arctangent.
- `fxpt_asin` and the motion processor mathematics: small finite domains and values that leave the 16-bit range.
- ConfigTransfer.Reports.WriteConfig: reports that reach beyond the memory the configuration lies in; the code does not
  check for them, and what they hit is not part of the model.
- ConfigTransfer.Reports.ReadConfig: read commands whose answer overruns the report buffer or that memory, likewise;
  AnswerFitsExactlyWhen says which overrun the buffer.
- LcdEscape.Bridge.Iterate: the ring buffer behind the bridge is its contents as a sequence; RingBuffer has the buffer.
- CDC, HID and mass storage bootloaders, the nRF24 radio, USB descriptors and callbacks, LEDs, controller inputs and the
  other LUFA demonstration projects: input and output, constant tables, or the same flash steps with less state.
