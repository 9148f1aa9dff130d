# GPIB library: firmware loader, bus protocol, transfers and device registry

A Dafny model of the parts of the macOS GPIB library where whole-run behaviour matters most, with proofs
about it. `dafny verify dfyconfig.toml` checks everything.

## What is modelled

**Firmware loader** (`ezusb.m`). An Intel HEX file is read through one reused 512-byte line buffer, its
records are merged into segments of up to 1023 bytes, and each segment is poked into RAM, in one pass or in
two with the CPU stopped in between, or laid out in a boot EEPROM.

- `Memory`, `Merging`, `HexReader`, `HexPrinter`: byte writes and their traces, the merging of records, the
  reader, and a reference printer it undoes.
- `Target`, `Poking`, `RamLoader`, `RamImage`: the target (RAM, CPU flag, EEPROM, log of requests), the poke
  functions, the RAM load as a function, what every run keeps and what a successful one leaves.
- `Reordering`: the order in which two passes write a file, and exactly when it makes a difference.
- `EepromImage`, `EepromLoader`, `BootFiles`: the EEPROM layout with a reference decoder, boot safety at every
  moment, and exactly which files have it.
- `Firmware`, `IhexParser`, `Loaders`: the same code as it runs, on arrays and objects changed in place, each
  method proved equal to its specification function.

**Bus addressing and serial poll** (`gpib_sys.m`, `gpib_visa_internal.m`, `gpib_user.h`). `Bus` gives each
instrument the addressed states of the talker and listener functions of IEEE Std 488.1-1987 (sections 2.5 and
2.6), extended forms included, and for each instrument separately whether it takes the two optional
unaddressing rules. `Addresses` and `Controller` build the command strings and send them in pieces over a driver
that may fail at any call; `PollModel` and `SerialPoll` are the serial polls.

**Transfers and registry** (`gpib_link.m`, `gpib_board.m`). `Transfer` and `Writes` are the nested chunking loops
with partial writes and EOI placement. `Registry` is the reference-counted device list beside the descriptor
table as a step function, `Outcomes` what each of its steps does field by field; `DeviceTables` is the same on
objects.

A specification function and the method proved to compute it appear together where the source updates things
in place: lemmas speak of the function.

## Assumptions

- A vendor write request fails or is applied in full, and a failed one reports -1. Which requests fail, and the
  errno each leaves, is an arbitrary function of the request's number. Only the lemmas about successful RAM loads
  assume that a failure leaves errno nonzero (`ErrnoSet`); `RamPokeReportsSuccess` says what happens otherwise.
- A file is its text: opening may fail, reading may not. What the uninitialised line buffer holds at first is
  arbitrary.
- A scan that would access memory outside its line or segment buffer stops there in the model, with an outcome no
  run of the source reports; what every run keeps is proved of all requests up to that point. `OverrunExactly` says
  exactly which texts get there.
- The loops of the source that never end are given an outcome that says so (`endless`), and proved to have it
  exactly on the inputs named.
- The board driver follows its header (`gpib_board.h`, 169-199): it sends or receives a prefix of what it is asked,
  an error is negative (for taking control, zero means success), command bytes go out with ATN true, reads stop at
  an END. Otherwise its answers are arbitrary. Each call and its result is recorded, so contracts can say exactly
  which results lead to which outcome.
- Data reads and writes that report no error make progress. For commands this is a flag of the board
  (`progress`), named by the contracts that need it.
- On the bus, the board is alone at its primary address and all addresses are at most 30 (`ProperBus`).

## Where the code and its comments differ

The model follows the code.

- The status byte "fifo" (`gpib_board.m`, 427, 453) is last in, first out: `DrainedOrder`.
- A push to a full queue is meant to drop the oldest byte and report the loss later with -EPIPE. It refuses the new
  byte instead and clears its own mark, so -EPIPE is never seen: `PushPopOutcomes`, `QueueConservation`.
- "Write the config byte for FX, FX2" (`ezusb.m`, 496) is done for AN21xx, which has none, over its first header:
  `An21Boots`, `An21FailingFile`.
- The two-stage load "writes on-chip memory" last (`ezusb.m`, 337), so overlapping records are not written in file
  order: `OverlapIsReordered`; `FileImage` says exactly when that shows in memory.
- "Next shouldn't overwrite it" (`ezusb.m`, 810) fails past 64 KB, and the load still reports success:
  `LoadedImageBoots`, `OversizedFile`.
- "# comment-till-end-of-line" (`ezusb.m`, 588) is a comment until the line buffer is full, and what follows may be
  read as a record: `CommentSkippedExactly`, `CommentThatPokes`.
- A length column with a minus sign wraps around the reader's length test: `OverrunExactly`,
  `NegativeLengthOverruns`. An address column with one is far above 64 K: `AddressBound`.
- The hex reader accepts data records of up to 250 bytes but a printed line of 250 leaves its newline behind, which
  is then rejected: `ReaderUndoesPrinter` gives 249 as the exact bound. Checksums are not looked at.
- `ibwrt` does not clear its count when going to standby fails, so a write may report success, and the whole count,
  with bytes unsent: of 20 bytes in pieces of 10, if the second piece gets no standby, 10 are sent and 20 counted.
  `FalseSuccess`, `WriteIoctl` and the calls above it say exactly when.
- `read_ioctl` keeps its remainder in 16 bits: `ReadIoctl`.
- Splitting at end-of-string bytes leaves the byte itself at the start of the next block, which is then empty for
  ever, and the search for one never ends in 256 bytes or more without: `BlocksReachEnd`.
- A setup string of more than 255 bytes, as for 127 extended addresses, overwrites its own beginning, and only the
  end of it is sent: `CreateSendSetup`, `KeptSetupSends`.
- Setting the primary address of a board descriptor gives the board the address the descriptor has: `PadIoctl`.
- A send setup whose query of the board's own address fails is reported as sent: `InternalSendSetup`.
- A serial poll asks board descriptors too: `BoardPolled`.
- A serial poll ignores whether going to standby succeeded: `ReadSerialPollByte`.

## Model

| member | source | states |
|---|---|---|
| Merging.MergeKeepsTrace | macosx_gpib_lib/macosx_gpib_lib/ezusb.m:650-684 | For any records the poked segments perform exactly their byte writes, in file order, if and only if no nonempty record meets an empty buffer that still carries another address (the zero-length-record case) |
| Merging.MergePreservesMeaning | macosx_gpib_lib/macosx_gpib_lib/ezusb.m:650-684 | For nonempty records, storing the segments leaves every memory as storing the records one by one does |
| Merging.ZeroLengthRecordMisplaces | macosx_gpib_lib/macosx_gpib_lib/ezusb.m:653-673 | A concrete file in which a byte meant for 0x100 is poked to 0 because a zero-length record left the address stale |
| Merging.SegmentsAreTheSegmentation | macosx_gpib_lib/macosx_gpib_lib/ezusb.m:646-684 | The poked segments are the one and only grouping of whole records, laid end to end, of 1 to 1023 bytes each, split only at an address gap or where the next record would overflow |
| Merging.EmittedIsPrefix | macosx_gpib_lib/macosx_gpib_lib/ezusb.m:576-674 | What was poked before a failed read is a prefix of the segmentation of any continuation of the file |
| Merging.SegmentSizes | macosx_gpib_lib/macosx_gpib_lib/ezusb.m:559-561 | Every segment handed to a poke function has 1 to 1023 bytes and a 16-bit address, whatever the records |
| HexReader.ScanBounds | macosx_gpib_lib/macosx_gpib_lib/ezusb.m:605-644 | Whatever the text and the junk in the line buffer, no record that is read has more than 250 bytes, and its address is a 32-bit number |
| HexReader.DigitIs | macosx_gpib_lib/macosx_gpib_lib/ezusb.m:608-670 | A character counts as a hexadecimal digit exactly if it is in "0123456789ABCDEF" or "0123456789abcdef", with its position there as value |
| HexReader.StrtoulReads | macosx_gpib_lib/macosx_gpib_lib/ezusb.m:608-670 | A column is read as strtoul with base 16 reads it: after blanks, a sign and a 0x prefix, the number that the digits up to the first other character express, saturated at 64 bits, negated by a minus sign |
| HexReader.StrtoulNothing | macosx_gpib_lib/macosx_gpib_lib/ezusb.m:608-670 | A column without a digit after blanks and a sign is read as 0 |
| HexReader.LineOutcome | macosx_gpib_lib/macosx_gpib_lib/ezusb.m:582-644 | How the scan ends at a line that holds no data record: -2, no error for type 1, -3 for another type, -4 for a line that is too short |
| HexReader.OverrunExactly | macosx_gpib_lib/macosx_gpib_lib/ezusb.m:605-672 | For every text, no record is copied from or to beyond the line and segment buffers, if and only if no type-0 record line that is reached has a length column of a minus sign and a digit d from 1 to 5 on a string of at least 11 - 2d characters |
| HexReader.LengthColumn | macosx_gpib_lib/macosx_gpib_lib/ezusb.m:605-609 | The length column is below 256 unless it is a minus sign and a nonzero digit d, which stands for 2^64 - d |
| HexPrinter.NegativeLengthOverruns | macosx_gpib_lib/macosx_gpib_lib/ezusb.m:605-672 | A concrete line, with length column -1, on which the scan leaves its buffers |
| HexReader.FilledTerminates | macosx_gpib_lib/macosx_gpib_lib/ezusb.m:577-600 | The string in the line buffer is never longer than the line that was read |
| HexReader.AddressBound | macosx_gpib_lib/macosx_gpib_lib/ezusb.m:611-615 | The four-column address field, with blanks, sign and prefix accepted as strtoul does, is below 64 K, or holds a minus sign and is the 32-bit negation of such a number |
| HexPrinter.RecordReadBack | macosx_gpib_lib/macosx_gpib_lib/ezusb.m:588-674 | A record's line, with digits of either case, that fits the line buffer is read back exactly; one over 250 bytes is rejected as too short |
| HexPrinter.BodyIsLine | macosx_gpib_lib/macosx_gpib_lib/ezusb.m:600-674 | What the upper-case reference printer prints for a record is such a line |
| HexPrinter.CommentSkippedExactly | macosx_gpib_lib/macosx_gpib_lib/ezusb.m:576-595 | A comment line, ending at its only newline, is skipped whatever follows it if and only if it fits the buffer or every piece fgets cuts it into starts with '#' |
| HexPrinter.CommentSkipped | macosx_gpib_lib/macosx_gpib_lib/ezusb.m:588-590 | The scan of a line that meets this condition goes on as the scan of what follows, with another content of the line buffer |
| HexPrinter.LongCommentRejected | macosx_gpib_lib/macosx_gpib_lib/ezusb.m:582-595 | A longer comment whose continuation does not look like a comment or record makes the scan fail with -2 |
| HexPrinter.CommentReadAsRecord | macosx_gpib_lib/macosx_gpib_lib/ezusb.m:576-595 | A record at the cut, 511 characters into a comment line, is read and its data is kept |
| HexPrinter.CommentThatPokes | macosx_gpib_lib/macosx_gpib_lib/ezusb.m:576-595 | A concrete comment line that is read as a record storing 7 at 0 |
| HexPrinter.ReaderUndoesPrinter | macosx_gpib_lib/macosx_gpib_lib/ezusb.m:576-684 | Reading a file of such lines, each digit in either case, comments anywhere, succeeds exactly when no record has more than 249 bytes, and then yields exactly its records |
| Target.ExternalMeansOffChip | macosx_gpib_lib/macosx_gpib_lib/ezusb.m:56-121 | Each is_external predicate holds of a nonempty segment exactly when some byte lies outside the part's on-chip ranges |
| Poking.RetryBound | macosx_gpib_lib/macosx_gpib_lib/ezusb.m:743-758 | At most six attempts, all at the same request, every one but the last timed out, and the last only if it is the sixth |
| Poking.PokeRefusals | macosx_gpib_lib/macosx_gpib_lib/ezusb.m:685-733 | The pokes that send nothing, each with its return value, and that every other poke sends a request (785-796 for an EEPROM) |
| Poking.RetryEffect | macosx_gpib_lib/macosx_gpib_lib/ezusb.m:746-759 | The retry loop changes the target only by its last attempt, and only if that one was applied |
| Poking.RamPokeReportsSuccess | macosx_gpib_lib/macosx_gpib_lib/ezusb.m:740-760 | Success is reported exactly when the last attempt was applied or failed leaving errno zero; a failed write leaves memory alone |
| RamLoader.LoadKeepsDiscipline | macosx_gpib_lib/macosx_gpib_lib/ezusb.m:288-361 | In every run, with every pattern of failures, 0xA0 requests write only on-chip addresses of a stopped CPU or the part's CPUCS register, 0xA3 requests come only while the CPU is as it was at the start, and the EEPROM is not touched |
| RamLoader.LoadResetsAround | macosx_gpib_lib/macosx_gpib_lib/ezusb.m:274-356 | Every successful load writes 1 to CPUCS, at 0xe600 on FX2 and FX2LP and at 0x7f92 on the others, before any on-chip write and at once if in a single stage, and writes 0 to it last; before the first only external memory is written, between the two only on-chip memory |
| RamLoader.LoadRamCodes | macosx_gpib_lib/macosx_gpib_lib/ezusb.m:251-361 | A load ends with 0, with -1 or with the code of a scan that failed |
| RamLoader.BeyondFlushes | macosx_gpib_lib/macosx_gpib_lib/ezusb.m:650-664 | What is poked before a copy that leaves its buffers: the saved data if it is not contiguous, or is shorter than the digit of the negative length |
| RamImage.SingleStageImage | macosx_gpib_lib/macosx_gpib_lib/ezusb.m:289-361 | A single-stage load that reports success wrote exactly the file's segments, each once and in order, and left the CPU running |
| RamImage.TwoStageImage | macosx_gpib_lib/macosx_gpib_lib/ezusb.m:299-361 | A two-stage load that reports success wrote the external segments its first scan read and then the on-chip ones its second scan read, each once, and its counters say so |
| Reordering.EachSegmentOnce | macosx_gpib_lib/macosx_gpib_lib/ezusb.m:707-731 | The skip-internal and skip-external passes together write every segment exactly once |
| Reordering.TwoPassesEqualOne | macosx_gpib_lib/macosx_gpib_lib/ezusb.m:322-346 | On every memory, writing external segments first leaves the memory of file order if and only if at every address an on-chip segment writes, the last byte of the file is the last byte of the on-chip segments |
| Reordering.ReorderableIsEnough | macosx_gpib_lib/macosx_gpib_lib/ezusb.m:322-346 | This holds if no external segment overwrites an earlier on-chip one |
| Reordering.OverlapIsReordered | macosx_gpib_lib/macosx_gpib_lib/ezusb.m:646-648 | Two concrete FX2 records, poked as they are, whose two-stage load leaves 1 at 0x1fff where file order leaves 2 |
| Reordering.HarmlessOverlap | macosx_gpib_lib/macosx_gpib_lib/ezusb.m:646-648 | Two concrete FX2 records of which the external one overwrites the on-chip one and the order makes no difference |
| RamImage.FileWritten | macosx_gpib_lib/macosx_gpib_lib/ezusb.m:251-361 | From a printed file: the writes that reached memory are the merged segments, nothing else, and total and count agree with them |
| RamImage.FileImage | macosx_gpib_lib/macosx_gpib_lib/ezusb.m:251-361 | The memory a successful load leaves is that of storing the file's records one by one in file order if and only if it was in a single stage or the on-chip segments have the last word in the file; the total is in any case the sum of the record lengths |
| Reordering.DisjointRecordsReorderable | macosx_gpib_lib/macosx_gpib_lib/ezusb.m:322-346 | A file that names no address twice meets both conditions on order |
| RamImage.FaultlessLoad | macosx_gpib_lib/macosx_gpib_lib/ezusb.m:288-361 | When no request fails, a load succeeds if and only if the file reads to its end and, in a single stage, every segment is on chip |
| RamImage.FileLoads | macosx_gpib_lib/macosx_gpib_lib/ezusb.m:251-361 | The same of a printed file: it loads if and only if no record has more than 249 bytes and, in a single stage, every segment is on chip |
| EepromImage.DecodeUndoesLayout | macosx_gpib_lib/macosx_gpib_lib/ezusb.m:785-810 | A reference decoder run over the laid-out bytes returns exactly the poked segments and stops at the one marked last |
| EepromImage.DecodedFits | macosx_gpib_lib/macosx_gpib_lib/ezusb.m:785-810 | Whatever decodes lies below 64 KB |
| EepromImage.PokeWritesSegment | macosx_gpib_lib/macosx_gpib_lib/ezusb.m:762-814 | One poke either fails or stores header and data end to end at the next free address and moves past them; it never writes below the image |
| EepromImage.PokeAllWritesImage | macosx_gpib_lib/macosx_gpib_lib/ezusb.m:762-814 | Over a whole sequence of pokes the EEPROM receives the image of the segments as one contiguous block, or a poke fails |
| EepromImage.ImageLaid | macosx_gpib_lib/macosx_gpib_lib/ezusb.m:794-811 | The exact trace of byte writes of any successful sequence of pokes, including one that wraps around at 64 KB |
| EepromImage.WritesOverlap | macosx_gpib_lib/macosx_gpib_lib/ezusb.m:810-811 | An image's writes never overlap exactly when it has at most 64 KB |
| EepromImage.WrapReachesHeader | macosx_gpib_lib/macosx_gpib_lib/ezusb.m:810-811 | Writes from the start offset reach below it, and reach the boot mark, exactly when they do not fit below 64 KB |
| EepromLoader.ImageComplete | macosx_gpib_lib/macosx_gpib_lib/ezusb.m:476-518 | Between the two writes of byte 0 only bytes above the mark are written, and success means the complete image is in place |
| EepromLoader.CompleteImageBoots | macosx_gpib_lib/macosx_gpib_lib/ezusb.m:395-455 | A complete image decodes, from offset 8 on FX2 and FX2LP and from offset 9 after a zero byte on FX, to all segments and a write of 0 to CPUCS, whatever byte 0 holds |
| EepromLoader.BootSafety | macosx_gpib_lib/macosx_gpib_lib/ezusb.m:465-532 | For FX, FX2, FX2LP, every file that fits, every pattern of failures and every moment after the initial mark: byte 0 is nonzero only when the load has succeeded; it is then 0xB6 or 0xC2, and the EEPROM decodes, from the part's own offset, to the whole file and a write of 0 to its CPUCS |
| EepromLoader.LoadEepromCodes | macosx_gpib_lib/macosx_gpib_lib/ezusb.m:372-532 | A load ends with 0, with -1 or with the code of a scan that failed |
| EepromLoader.LoadWrites | macosx_gpib_lib/macosx_gpib_lib/ezusb.m:465-532 | Every byte a successful load writes, in order, whatever the size of the image; its own writes run over the boot mark exactly when it does not fit |
| EepromLoader.LoadedImageBoots | macosx_gpib_lib/macosx_gpib_lib/ezusb.m:395-532 | A load that reports success leaves the part's boot mark, 0xB6 or 0xC2, and an EEPROM that decodes from its own offset to the file and the reset of its CPU exactly when the image fits 64 KB |
| EepromLoader.FaultlessEeprom | macosx_gpib_lib/macosx_gpib_lib/ezusb.m:381-532 | When no request fails, an EEPROM load succeeds if and only if the EEPROM is large, the part known, the file reads to its end and every segment is on chip |
| EepromLoader.An21Boots | macosx_gpib_lib/macosx_gpib_lib/ezusb.m:450-457 | On AN21xx the config byte overwrites the first header byte: the EEPROM decodes to the file exactly when a first segment exists and has fewer than 256 bytes |
| EepromLoader.An21LoadBoots | macosx_gpib_lib/macosx_gpib_lib/ezusb.m:496-506 | The whole AN21xx load that reports success leaves a decodable file exactly when the image fits 64 KB and a first segment exists and has fewer than 256 bytes |
| BootFiles.SafeExactly | macosx_gpib_lib/macosx_gpib_lib/ezusb.m:465-532 | For FX, FX2 and FX2LP and a file that reads to its end with every segment on chip: the EEPROM is unmarked or complete at every moment of every pattern of failures, if and only if the image fits 64 KB |
| BootFiles.UnfitIsUnsafe | macosx_gpib_lib/macosx_gpib_lib/ezusb.m:465-532 | If nothing fails, an image that does not fit is written and marked, success is reported, and it does not decode to the file |
| BootFiles.OversizedFile | macosx_gpib_lib/macosx_gpib_lib/ezusb.m:785-810 | Concrete files that load like this: 260 or more records of 249 bytes at address 0 |
| BootFiles.An21FailingFile | macosx_gpib_lib/macosx_gpib_lib/ezusb.m:496-506 | A concrete file that loads into an AN21xx EEPROM, fits and does not boot: two contiguous records of 128 bytes |
| Firmware.UsbDevice.EzusbWrite | macosx_gpib_lib/macosx_gpib_lib/ezusb.m:178-196 | One vendor request: the device after it is the specified one, and the status and errno tell its outcome |
| Firmware.UsbDevice.EzusbCpucs | macosx_gpib_lib/macosx_gpib_lib/ezusb.m:202-223 | Stops or resets the CPU, or reports failure and changes nothing but the log |
| Firmware.RamPokeContext.Poke | macosx_gpib_lib/macosx_gpib_lib/ezusb.m:688-760 | Mode dispatch, counters and request in place, equal to the poke specification in context, device and result |
| Firmware.RamPokeContext.WriteAndRetry | macosx_gpib_lib/macosx_gpib_lib/ezusb.m:746-759 | The retry loop in place equals the bounded-retry specification |
| Firmware.EepromPokeContext.Poke | macosx_gpib_lib/macosx_gpib_lib/ezusb.m:762-814 | The header bytes, the two requests and the moved address equal the specification, on every error path |
| Firmware.Poker.Poke | macosx_gpib_lib/macosx_gpib_lib/ezusb.m:657-661 | is_external and the poke function, called through the context pointer |
| IhexParser.Fgets | macosx_gpib_lib/macosx_gpib_lib/ezusb.m:582-586 | The line buffer after fgets: the next line or buffer-full, a terminator, and the rest as earlier lines left it |
| IhexParser.ReadField | macosx_gpib_lib/macosx_gpib_lib/ezusb.m:605-627 | Converting a column through a temporary terminator leaves the buffer unchanged |
| IhexParser.StripNewline | macosx_gpib_lib/macosx_gpib_lib/ezusb.m:597-600 | Only the first newline of the string in the buffer becomes a terminator |
| IhexParser.AppendData | macosx_gpib_lib/macosx_gpib_lib/ezusb.m:666-673 | The data bytes of a record are appended to the saved ones, or the copy stops at its first access outside one of the two buffers, exactly if it makes one |
| IhexParser.ReadColumns | macosx_gpib_lib/macosx_gpib_lib/ezusb.m:588-644 | The tests of a line, in the order the reader makes them, agree with the line's classification |
| IhexParser.SaveRecord | macosx_gpib_lib/macosx_gpib_lib/ezusb.m:617-673 | Flush-or-append in place is one step of the merging specification; a failed poke ends the scan as it would end the whole sequence |
| IhexParser.ScanAndPoke | macosx_gpib_lib/macosx_gpib_lib/ezusb.m:576-685 | The loop on reused buffers pokes exactly the segments of the scan and reports its code, -1 after a failed poke, or that it would leave its buffers |
| IhexParser.ParseIhex | macosx_gpib_lib/macosx_gpib_lib/ezusb.m:552-686 | The whole scan in place equals its specification on reader and merger, for any junk in the line buffer |
| Loaders.EzusbLoadRam | macosx_gpib_lib/macosx_gpib_lib/ezusb.m:251-361 | The imperative RAM load equals the specification function; a file that cannot be opened gives -2 and no request |
| Loaders.EzusbLoadEeprom | macosx_gpib_lib/macosx_gpib_lib/ezusb.m:371-533 | The imperative EEPROM load equals the specification function; a small EEPROM gives -1 and a missing file -2 with no request |
| Loaders.WriteImage | macosx_gpib_lib/macosx_gpib_lib/ezusb.m:476-518 | Scan, reset record and extra byte in place equal the specification between the two marks |
| Bus.AddressBytes | macosx_gpib_lib/macosx_gpib_lib/gpib_user.h:192-205 | For addresses up to 30 the command bytes lie in the listen, talk and secondary groups |
| Bus.CommandBits | macosx_gpib_lib/macosx_gpib_lib/gpib_user.h:192-205 | A command byte is the address modulo 256 with the bits of its group set and all other bits as they were |
| Bus.HearBusConcat | macosx_gpib_lib/macosx_gpib_lib/gpib_link.m:419-442 | Splitting a command string into board-buffer pieces leaves the same bus state |
| Bus.HearTalk | macosx_gpib_lib/macosx_gpib_lib/gpib_user.h:197-205 | The exact effect of a talk address, with secondary, on any instrument in any state |
| Bus.HearListen | macosx_gpib_lib/macosx_gpib_lib/gpib_user.h:192-205 | The exact effect of a listen address, with secondary, on any instrument in any state |
| Bus.HearSendSetup | macosx_gpib_lib/macosx_gpib_lib/gpib_visa_internal.m:613-633 | The exact effect of a send setup on any instrument in any state |
| Bus.SendSetupReachesTarget | macosx_gpib_lib/macosx_gpib_lib/gpib_visa_internal.m:596-634 | From any bus state the board becomes the only talker, and an instrument listens exactly when the list names it |
| Bus.ReceiveSetupReachesTarget | macosx_gpib_lib/macosx_gpib_lib/gpib_visa_internal.m:1510-1517 | From every bus state exactly the board listens and exactly the addressed device talks, if and only if no extended device sits at the primary address of one addressed without a secondary |
| Addresses.ExtractUndoesPack | macosx_gpib_lib/macosx_gpib_lib/gpib_visa_internal.m:2296-2322 | Extracting inverts packing (2617-2627) exactly for addresses up to 30, and a packed address in range is never NOADDR |
| Addresses.PackedLayout | macosx_gpib_lib/macosx_gpib_lib/gpib_visa_internal.m:2617-2627 | The primary address is the low byte, and the high byte is 0x60 plus a secondary address, or 0 |
| Addresses.ExtractExactly | macosx_gpib_lib/macosx_gpib_lib/gpib_visa_internal.m:2296-2336 | What extracting gives for every 16-bit number, -1 for no secondary address and -2 for a part that is none, and which numbers are addresses |
| Addresses.NumAddresses | macosx_gpib_lib/macosx_gpib_lib/gpib_visa_internal.m:2365-2379 | The 8-bit count is the number of entries before the terminator, and never ends exactly when there is none among the first 256; a null list has none |
| Addresses.AddressListIsValid | macosx_gpib_lib/macosx_gpib_lib/gpib_visa_internal.m:2338-2354 | True exactly for null and lists of valid addresses, and else ibcnt is the first bad index |
| Addresses.SendSetupLength | macosx_gpib_lib/macosx_gpib_lib/gpib_visa_internal.m:690-698 | A setup string for n addresses has at most 3 + 2n bytes; 126 addresses always fit the 8-bit index, 127 extended ones do not |
| Addresses.CreateSendSetup | macosx_gpib_lib/macosx_gpib_lib/gpib_visa_internal.m:596-634 | What the buffer holds up to the returned index is the setup string if that has at most 255 bytes, and else the bytes stored since the 8-bit index last started over; nothing is counted for a null or bad list or when the board's address cannot be queried |
| Addresses.KeptSetupSends | macosx_gpib_lib/macosx_gpib_lib/gpib_visa_internal.m:596-634 | From every bus state that string sets the bus to send to the list, if and only if the setup has at most 255 bytes; a longer one loses the board's talk address |
| Controller.Board.Ibcac | macosx_gpib_lib/macosx_gpib_lib/gpib_sys.m:89-112 | Control is taken exactly if ATN is false, and 0 is returned only with ATN true |
| Controller.Board.Ibgts | macosx_gpib_lib/macosx_gpib_lib/gpib_sys.m:253-271 | ATN is released exactly when the result is no error |
| Controller.Board.Ibcmd | macosx_gpib_lib/macosx_gpib_lib/gpib_sys.m:126-155 | Refused without control; else an error exactly when control, the command or the timer fails, and what was written was heard |
| Controller.Board.CommandIoctl | macosx_gpib_lib/macosx_gpib_lib/gpib_link.m:399-452 | In pieces of at most one board buffer, at least one call; the completed count is exactly what the bus heard, an error is returned exactly if a call failed, and success with progress means all of it |
| Controller.Board.MyIbcmd | macosx_gpib_lib/macosx_gpib_lib/gpib_visa_internal.m:540-594 | -1 exactly without control or after a failed call, else the count the bus heard |
| Controller.Board.InternalSendSetup | macosx_gpib_lib/macosx_gpib_lib/gpib_visa_internal.m:662-712 | Success means that what the 8-bit index keeps of the setup was heard: of at most 255 bytes, as for up to 126 addresses, all, and the bus is set to send to the list; or that a query of the board's address failed and nothing was heard. Failure only for a bad, null or empty list, a device's handle, no control, or a failed call |
| Controller.Board.InternalReceiveSetup | macosx_gpib_lib/macosx_gpib_lib/gpib_visa_internal.m:1488-1526 | Success exactly for a valid address, a known board address, control and no failed call; then, given progress, the bus is set to receive from it |
| PollModel.SetupStartsPolling | macosx_gpib_lib/macosx_gpib_lib/gpib_sys.m:653-658 | From any bus state the setup string puts every instrument in serial poll mode with only the board listening |
| PollModel.TalkKeepsPolling | macosx_gpib_lib/macosx_gpib_lib/gpib_sys.m:685-692 | However much of a talk address is heard polling goes on, unless it is the board's own and stops the board listening |
| PollModel.TalkAsks | macosx_gpib_lib/macosx_gpib_lib/gpib_sys.m:685-692 | A whole talk address sets the bus for that device's byte |
| PollModel.BoardPolled | macosx_gpib_lib/macosx_gpib_lib/gpib_sys.m:773-776 | A board descriptor's talk address makes the board the one talker, and ends polling exactly when the board's listener function is unaddressed by its own talk address |
| PollModel.PollAsksEveryTime | macosx_gpib_lib/macosx_gpib_lib/gpib_sys.m:685-703 | From every polling state only the polled device answers, if and only if its address is unambiguous |
| PollModel.CleanupReleases | macosx_gpib_lib/macosx_gpib_lib/gpib_sys.m:725-728 | After the cleanup string nothing talks and nothing is in serial poll mode, from any state |
| PollModel.ServiceBit | macosx_gpib_lib/macosx_gpib_lib/gpib_user.h:312 | A status byte asks for service exactly if bit 6 is set, whatever the others |
| PollModel.SweepStores | macosx_gpib_lib/macosx_gpib_lib/gpib_board.m:427-451 | After a sweep every address has stored, behind what it had, the values pushed for it in order, up to 1024 bytes |
| PollModel.SweepConservation | macosx_gpib_lib/macosx_gpib_lib/gpib_sys.m:773-785 | Over a sweep's pushes every descriptor finds its queue, the index holds, and the queues grow by exactly the number of pushes accepted |
| SerialPoll.PollConservation | macosx_gpib_lib/macosx_gpib_lib/gpib_sys.m:755-791 | A nonnegative result of a whole poll is the total growth of all queues; every address has stored behind what it had the values pushed for it, up to 1024; a queue changes only if a byte with the service bit set was read for its address |
| SerialPoll.RequestOrigin | macosx_gpib_lib/macosx_gpib_lib/gpib_sys.m:776-784 | Every pushed byte was read in this poll, has bit 6 set, and is for some descriptor's address |
| SerialPoll.RequestsExactly | macosx_gpib_lib/macosx_gpib_lib/gpib_sys.m:773-785 | Every round that was heard completely and answered with bit 6 set gives exactly one push, in order: of that byte, to its own descriptor's address |
| SerialPoll.GpibSys.SetupSerialPoll | macosx_gpib_lib/macosx_gpib_lib/gpib_sys.m:642-671 | One command string to the driver; success exactly if it was sent completely without error |
| SerialPoll.GpibSys.ReadSerialPollByte | macosx_gpib_lib/macosx_gpib_lib/gpib_sys.m:673-713 | A byte is read exactly if the talk address was sent completely, after a standby request; ATN is then false exactly if that succeeded (the code ignores its result) |
| SerialPoll.GpibSys.CleanupSerialPoll | macosx_gpib_lib/macosx_gpib_lib/gpib_sys.m:715-738 | SPD and UNT, and success exactly if both were sent without error |
| SerialPoll.GpibSys.SerialPollSingle | macosx_gpib_lib/macosx_gpib_lib/gpib_sys.m:740-753 | Cleanup follows every successful setup, even after a failed read; success exactly if all three steps succeeded, with the byte read on a bus set for the device; then every device is released |
| SerialPoll.GpibSys.SerialPollAll | macosx_gpib_lib/macosx_gpib_lib/gpib_sys.m:755-791 | The whole sequence of driver calls: setup, one round per descriptor, cleanup; each byte for a device at an unambiguous address is read on a bus set for it, unless a board descriptor before it stopped the board listening; pushes exactly as the answers ask, the result counting those accepted |
| SerialPoll.GpibSys.Dvrsp | macosx_gpib_lib/macosx_gpib_lib/gpib_sys.m:57-78 | Refused without control or out of range with no bus traffic; else one single poll, overridden only by a time-out |
| SerialPoll.GpibSys.GetSerialPollByte | macosx_gpib_lib/macosx_gpib_lib/gpib_sys.m:793-808 | A stored byte is returned without bus traffic; otherwise the device is polled and the registry is unchanged |
| Registry.PushPopOutcomes | macosx_gpib_lib/macosx_gpib_lib/gpib_board.m:427-477 | A push fails exactly on a full queue and then leaves it unchanged, mark included; a pop fails exactly on an empty one |
| Registry.QueueConservation | macosx_gpib_lib/macosx_gpib_lib/gpib_board.m:427-477 | Over every run of pushes and pops the count is the stored length, at most 1024, no byte appears or vanishes, and no pop ever reports a lost byte |
| Registry.DrainedOrder | macosx_gpib_lib/macosx_gpib_lib/gpib_board.m:453-468 | Bytes come out last in first out, and so in order of arrival only if they read the same both ways |
| Registry.IncrementCounts | macosx_gpib_lib/macosx_gpib_lib/gpib_board.m:189-220 | An increment adds one to the count of one address and to no other |
| Registry.SubtractCounts | macosx_gpib_lib/macosx_gpib_lib/gpib_board.m:222-250 | A decrement takes one from the count of its address and from no other, dropping a queue at zero |
| Registry.DescriptorHasQueue | macosx_gpib_lib/macosx_gpib_lib/gpib_board.m:479-490 | In an indexed registry the search for an open device's queue never fails |
| Outcomes.SameIsEqual | macosx_gpib_lib/macosx_gpib_lib/gpib_board.m:189-250 | Addresses count as one exactly if their primary parts are equal and their secondary ones are, or are both negative |
| Outcomes.OpenOutcome | macosx_gpib_lib/macosx_gpib_lib/gpib_link.m:515-556 | An open finds a descriptor with an equal address, or appends one of the given kind with what 16-bit fields keep of the address; no stored status byte changes |
| Outcomes.CloseOutcome | macosx_gpib_lib/macosx_gpib_lib/gpib_link.m:558-571 | A close removes the handle's descriptor and no other, and the stored bytes of its address only if no other descriptor has it |
| Outcomes.SetPadOutcome | macosx_gpib_lib/macosx_gpib_lib/gpib_link.m:649-676 | A primary address change that returns 0 gives a device descriptor that primary address, keeps its secondary one and every other descriptor, and leaves a queue for the new address; each refusal with its value |
| Outcomes.SetSadOutcome | macosx_gpib_lib/macosx_gpib_lib/gpib_link.m:678-704 | The same of a secondary address change |
| Outcomes.PushOutcome | macosx_gpib_lib/macosx_gpib_lib/gpib_board.m:427-451 | A push appends its byte to those of its address and of no other, unless there are 1024, when it returns -32 and stores nothing |
| Outcomes.PopOutcome | macosx_gpib_lib/macosx_gpib_lib/gpib_board.m:454-477 | A pop takes the last byte of its address, or returns -5 |
| Registry.OpenKeepsIndex | macosx_gpib_lib/macosx_gpib_lib/gpib_link.m:515-556 | An open keeps the device list an exact index of the descriptors if and only if the 16-bit fields do not fold its address onto an open one |
| Registry.CloseKeepsIndex | macosx_gpib_lib/macosx_gpib_lib/gpib_link.m:558-571 | A close keeps the index and succeeds |
| Registry.ReaddressKeepsIndex | macosx_gpib_lib/macosx_gpib_lib/gpib_link.m:662-676 | An address change (649-704) keeps the index and succeeds |
| Registry.StepKeepsIndex | macosx_gpib_lib/macosx_gpib_lib/gpib_link.m:515-571 | Every operation keeps the index exactly if it is a safe one, and the registry's own error is never reported |
| Registry.RunKeepsIndex | macosx_gpib_lib/macosx_gpib_lib/gpib_board.m:222-250 | Over every run the list stays an exact index exactly as long as every open is safe, and then both bug! returns are unreachable |
| Registry.FittingRunIndexed | macosx_gpib_lib/macosx_gpib_lib/gpib_link.m:649-704 | Every run whose opens fit the 16-bit fields is indexed throughout |
| Registry.WideOpenBreaksIndex | macosx_gpib_lib/macosx_gpib_lib/gpib_link.m:543-551 | Opening primary address 65541 after 5 gives two queues for one address |
| DeviceTables.StatusQueue.Push | macosx_gpib_lib/macosx_gpib_lib/gpib_board.m:428-451 | The queue object after a push equals the specification, on the full-queue path too |
| DeviceTables.StatusQueue.Pop | macosx_gpib_lib/macosx_gpib_lib/gpib_board.m:454-477 | The queue object after a pop equals the specification, with its three outcomes |
| DeviceTables.DeviceList.IncrementOpenDeviceCount | macosx_gpib_lib/macosx_gpib_lib/gpib_board.m:189-220 | Found and counted, or added with count one; every other queue unchanged |
| DeviceTables.DeviceList.SubtractOpenDeviceCount | macosx_gpib_lib/macosx_gpib_lib/gpib_board.m:222-250 | Reduced or removed, or -EINVAL with the list unchanged |
| DeviceTables.DeviceList.GetGpibStatusQueue | macosx_gpib_lib/macosx_gpib_lib/gpib_board.m:479-490 | The first queue with an equal address, or null |
| DeviceTables.GpibLink.OpenDevIoctl | macosx_gpib_lib/macosx_gpib_lib/gpib_link.m:515-556 | The tables after an open are those of the specified step, and the handle is the descriptor's index |
| DeviceTables.GpibLink.CloseDevIoctl | macosx_gpib_lib/macosx_gpib_lib/gpib_link.m:558-571 | The tables and reply of a close, including a handle past the table |
| DeviceTables.GpibLink.PadIoctl | macosx_gpib_lib/macosx_gpib_lib/gpib_link.m:649-676 | The tables and reply of a primary address change, bad handles included; on a board descriptor the board's own address takes the descriptor's, whatever was asked for (gpib_sys.m, 536-550) |
| DeviceTables.GpibLink.SadIoctl | macosx_gpib_lib/macosx_gpib_lib/gpib_link.m:678-704 | The tables and reply of a secondary address change; on a board descriptor the board's own secondary address takes the argument as a signed number (gpib_sys.m, 559-581) |
| DeviceTables.FieldsKeep | macosx_gpib_lib/macosx_gpib_lib/gpib_link.m:543-551 | The 16-bit fields keep an address modulo 65536 |
| DeviceTables.GpibLink.PopStored | macosx_gpib_lib/macosx_gpib_lib/gpib_sys.m:800-804 | A stored byte is popped exactly if the address has one |
| Transfer.Channel.Ibwrt | macosx_gpib_lib/macosx_gpib_lib/gpib_sys.m:221-246 | A prefix of the piece goes on the wire, EOI with its last byte; an error exactly if a call failed; a failed standby leaves the caller's count as it was |
| Transfer.Channel.WriteIoctl | macosx_gpib_lib/macosx_gpib_lib/gpib_link.m:455-513 | For every pattern of partial writes the wire gets a prefix in order with EOI on the last byte of the request only; the count is what the pieces' in-out counts add up to, and is that prefix exactly if no standby failed or nothing was sent; no error exactly when the count is the request's, and then all was sent exactly if no standby failed; without a failed call all is sent |
| Transfer.FalseSuccess | macosx_gpib_lib/macosx_gpib_lib/gpib_link.m:476-508 | A concrete run whose count is the whole request with half of it sent: a second piece of the same size that gets no standby |
| Transfer.Channel.Ibrd | macosx_gpib_lib/macosx_gpib_lib/gpib_sys.m:170-206 | The talker's next bytes, none past an END; 0 means filled or ended; an error exactly if a call failed |
| Transfer.Channel.ReadIoctl | macosx_gpib_lib/macosx_gpib_lib/gpib_link.m:341-396 | The talker's next bytes, none past the first END; 0 exactly when the low 16 bits of the request are filled or a message ended; the count is the bytes returned exactly for requests below 65536 |
| Writes.EndlessSearch | macosx_gpib_lib/macosx_gpib_lib/gpib_visa_internal.m:2189-2204 | The search with an 8-bit index never ends exactly when every one of its rounds passes on |
| Writes.EosBits | macosx_gpib_lib/macosx_gpib_lib/gpib_visa_internal.m:2189-2202 | A byte is an end-of-string byte exactly if it is the one configured or, with 7 bits compared, differs from it in the eighth alone |
| Writes.BlocksReachEnd | macosx_gpib_lib/macosx_gpib_lib/gpib_visa_internal.m:2158-2204 | The chain of blocks of a write reaches the end of nonempty data if and only if XEOS is off, or the data is shorter than 256 bytes and holds no end-of-string byte |
| Writes.EosByteStalls | macosx_gpib_lib/macosx_gpib_lib/gpib_visa_internal.m:2170-2179 | A concrete input whose end-of-string byte is never sent: every block from it on is empty |
| Writes.LongDataNeverSearched | macosx_gpib_lib/macosx_gpib_lib/gpib_visa_internal.m:2189-2204 | A concrete input of 300 bytes without an end-of-string byte, whose search never ends |
| Writes.Device.FindEos | macosx_gpib_lib/macosx_gpib_lib/gpib_visa_internal.m:2189-2204 | The first end-of-string byte, its absence, or that the 8-bit search never ends |
| Writes.Device.SendDataSmartEoi | macosx_gpib_lib/macosx_gpib_lib/gpib_visa_internal.m:2158-2187 | In every run a prefix of one block, with EOI on its last byte if forced or found; success exactly when the count is the block's, and then all of it was sent exactly if no standby failed |
| Writes.Device.MyIbwrt | macosx_gpib_lib/macosx_gpib_lib/gpib_visa_internal.m:2262-2294 | Success means the count is the data's, and then exactly the user's bytes are on the wire in order with EOI on the last one exactly if configured, if and only if no standby failed; if none did the count is in every case the prefix sent; without a failed call it succeeds, or never ends exactly when the data does not pass in one block |
| Writes.Device.WriteBuffer | macosx_gpib_lib/macosx_gpib_lib/gpib_visa_internal.m:2142-2153 | The inner loop sends one file buffer in as many writes as it takes, EOI only with the file's last byte or before an end-of-string byte it then stalls at |
| Writes.Device.MyIbwrtf | macosx_gpib_lib/macosx_gpib_lib/gpib_visa_internal.m:2087-2156 | However fread splits the file and writes are cut, success means the count is the file's, and then the whole file is on the wire with EOI on the final byte only, if and only if no standby failed; it fails only if a driver call or a file read does, and if none does it never ends exactly when XEOS is on and the file holds an end-of-string byte or some piece fread gave has 256 bytes or more |
| Writes.Device.InternalSendDataBytes | macosx_gpib_lib/macosx_gpib_lib/gpib_visa_internal.m:2042-2085 | Success means ibcnt is the length of the data with its added newline if any, and then all of it is on the wire, with EOI on its last byte unless NULLend, if and only if no standby failed; if none did ibcnt is in every case what was sent |

## Left out

- RamImage.FileImage: files in which a nonempty record follows a zero-length one onto an empty buffer; Merging.MergeKeepsTrace says exactly where their bytes go.
- EepromImage.PokeWritesSegment: segments that reach past 64 KB; EepromImage.ImageLaid covers every successful sequence.
- EepromImage.PokeAllWritesImage: images that reach 64 KB; EepromImage.ImageLaid covers every successful sequence.
- EepromLoader.ImageComplete: images past 64 KB; EepromLoader.LoadWrites covers every load that succeeds.
- EepromLoader.BootSafety: images past 64 KB; BootFiles.SafeExactly shows that no other file on chip is safe. AN21xx is covered by An21LoadBoots instead.
- EepromLoader.CompleteImageBoots: images past 64 KB; so too EepromLoader.An21Boots. LoadedImageBoots and An21LoadBoots cover them.
- Addresses.AddressListIsValid: a list without any terminator, which the source reads past; so too Addresses.NumAddresses.
- Addresses.CreateSendSetup: a list its count never ends on, which Addresses.NumAddresses reports first.
- Bus.ReceiveSetupReachesTarget: a receive setup for the board's own primary address.
- Controller.Board.CommandIoctl: a restarted request, with a completed count already above zero, which no caller makes (gpib_visa_internal.m, 568, 1451, 2227); the same for reads and writes.
- Controller.Board.MyIbcmd: the iberr, ibcnt and timeout bookkeeping of this and the other calls.
- Registry.StepKeepsIndex: wrap-around of the 32-bit reference count.
- DeviceTables.GpibLink.PadIoctl: passing the board's new address on to its hardware; the bus model's board address is fixed.
- SerialPoll.GpibSys.SerialPollAll: a registry whose index a wide open has broken, where a push may find no queue.
- Transfer.Channel.Ibrd: the end-of-string mode of reads; END is whatever the driver reports.
- Writes.Device.MyIbwrt: the addressing before the write, which Bus.SendSetupReachesTarget covers; conf->end.
- Writes.Device.MyIbwrtf: opening the file, and a file whose length changes while it is read.
- Verbose logging, including the average of zero segments it divides by; ctrl_msg's length check, which no caller can reach.
- USB and IOKit calls, run loops, timers, threads, hotplug and firmware file lookup.
- Locking (the mutex call does nothing) and the CMPL status bit (the query changes it).
- Handle stability across close, and cleanup_open_devices, which removes while indexing upward.
- The public API wrappers and bindings, ibask and ibconfig, timeout tables, FindLstn, parallel polls: thin dispatch or easy members only.
