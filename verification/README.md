# Verified model of the Framework EC tools

A Dafny model of two parts of FrameworkHacksPkg, joined by the `SendCommand` interface of
`Include/Protocol/CrosEC.h`, with proofs about them.

**The LPC transport.** `Controller.dfy` is the embedded controller (EC) as the host sees it: 512
bytes or more of shared memory, a status and a data port, and a clock that advances only when the
host stalls. Everything the EC decides (its status at any time, its answer to any packet) is an
arbitrary function, so each theorem holds for every EC. `Microchip.dfy` drives that memory through
the address and data registers of the Microchip part, `Azalea.dfy` through directly mapped ports;
both methods are proved against one description of an exchange, `HostCommand.Exchange`, whose
properties are lemmas. `Backoff.dfy` is the wait with its growing delay, `Packets.dfy` the
protocol-3 frames, `WireFormat.dfy` every flash request byte for byte.

**The reflash engine.** `EcDevice.dfy` is the EC at the level of commands: the simulated EC of
`CrosECNullLib` (a NOR flash whose writes can only clear bits, two counters, a version report),
and a fault for every command number. A command is obeyed. Or it goes rogue: it returns any code,
answers any numbers and leaves any bytes in the flash range it addresses; only a read that succeeds
still delivers the flash contents. Or, if it is a read, it delivers only part of what was asked, or
bytes that may be anything. What depends on reads being true says so (`NoFalseReads`: no read
delivers bytes that are not in the flash; `TrueReads`: every read that succeeded delivered all of
what the flash holds). `Flash.dfy` cuts work into packets, `Regions.dfy` holds the
flash maps, the options and the region mask, `Reflash.dfy` and `Command.dfy` the command itself.
Each method is proved equal to a function on `Machine`, a value that holds the EC's state and the
log of every command with its reply and the flash it left. The theorems are about these functions:
what every entry of the log satisfies on every EC (`FlashFacts.dfy`, `FlashPackets.dfy`,
`PhaseFacts.dfy`, `CommandFacts.dfy`), exactly when a read returns the flash contents
(`ReadFacts.dfy`), exactly for which images verification is sound (`Freshness.dfy`,
`StaleImages.dfy`), which addresses each option may touch on which board (`Boards.dfy`,
`Layouts.dfy`), what each status means (`Outcomes.dfy`), what is found in a packed flash map
(`FmapFacts.dfy`), what the simulated EC answers (`Simulated.dfy`), what a run on an EC that obeys achieves (`EndToEnd.dfy`), and where a guarantee
one might expect ends, with the exact condition (`Limits.dfy`) and with runs of the whole command on
every board on which it fails (`Witnesses.dfy`, `Example.dfy`).

`HostParams.dfy` and `OverTheBus.dfy` connect the two parts: the parameters of every flash request,
packed, framed and sent by either backend, are decoded by the EC to the same request; and with an
EC that obeys what it decodes, every reply of a whole flashing run is heard over the bus as the
reflash engine was modelled to hear it. What differs between the simulated EC and one on the bus
(the code a write returns, the code of a refusal, the reported write size and command versions) is
a `Profile`, over which the results are general.

Numbers that the code takes from a header or a table (ports, addresses, offsets, codes, masks) appear
under their names in the model of the code, and as literals in what is stated about it.

Conventions. Bytes are naturals below 256; 16-bit addresses wrap explicitly (`Wrap16`), 16-bit
masks are naturals with bit operations by recursion on the bits. Preconditions state what the
source demands of its callers or of its data: the payload limit of 248 bytes for the response
buffer, room for the dword head of a Microchip transfer, and lookups that stay inside a buffer
(the source checks no bounds when it follows a flash map).

Results that a reader of the code might not expect:

- In the wait, the loop counter runs ahead of the time really spent; still the stall never exceeds
  the timeout, a timeout is never more than 9995 microseconds early, and an EC that becomes idle is
  noticed after at most twice the time it needed, or 5 microseconds more than that time.
- A Microchip transfer from an unaligned address always moves bytes up to the next dword boundary,
  so reading mapped memory may write up to three bytes more than were asked for.
- Every single-byte corruption of a non-empty response outside its length field is refused; the
  checksum of an empty response is never looked at.
- `flash_erase` can report the success of a HELLO for an erase that failed (`EraseMayLie`, exact
  condition in `EraseResult`). The command does not rely on it: it reads the region back.
- `flash_read` ignores how many bytes were delivered and keeps what the packet buffer held. Even on
  an EC that never delivers a false byte, a region that passes verification is therefore known to
  hold the image exactly if the image is fresh there: at the end of every 248-byte packet its byte
  differs from the one 248 bytes earlier, or from 0 in the first packet (`VerificationIsSoundIff`,
  `FreshMeans`; for whole runs `PhaseIsSoundIff` and `SuccessIsSoundIff`). Padding is never fresh
  (`RepetitionIsStale`), so on every board every command line can report success over a wrong flash
  (`WrongFlashOnEveryBoard`). A caller that checked the delivered sizes could rely on verification
  for every image (`TrueReadsAreTrusted`, `CommandReads`). Against an EC that delivers false bytes
  nothing helps: it passes any region that is not empty (`LiesAreNotNoticed`).
- A write size that leaves less than 8 of 248 bytes over (1, 2, 4 or 8, for instance) makes
  `flash_write` build packets that do not fit its buffer, unless the whole write is at most 240
  bytes; with one above 248 it never gets on (`WritesFitIff`, `LargeSizesStall`).
- The board gate accepts every image whose ID, up to its delimiter, is a prefix of the running
  board's, an empty one included (`EmptyIdPassesEverywhere`). The search for the delimiter does not
  stop at a NUL; an ID with a NUL is compared as a C string (`GateIsPrefix`).
- Locking is attempted exactly if everything before it succeeded (`LockAttemptIff`); a run that fails
  after unlocking the flash leaves it open, on every board that needs unlocking
  (`LeftOpenOnEveryBoard`). If only the last notification fails, a device error is reported over a
  complete flash (`LockOutcome`).
- The comment above the asynchronous erase speaks of 20 seconds; with its 4 tries of half a second
  both erase paths wait 2 seconds at most (`EraseRunConfined`). The model follows the code.

## Model

| member | source | states |
|---|---|---|
| Backoff.ECWaitForReady | Library/MicrochipCrosECLib/EC.c:89-111 | for every status over time: 0 only if bits 1 and 2 of the last status were clear; the total stall is at most the timeout, and at least timeout - 9995 if it gives up; the 32-bit counter never overflows |
| Backoff.StallBounds | Library/MicrochipCrosECLib/EC.c:93-110 | from any loop head where counter - stall = delay - 5, the rest of the wait keeps the stall bounds |
| Backoff.WaitBounds | Library/AzaleaCrosECLib/EC.c:45-67 | the same bounds for a whole wait with any timeout |
| Backoff.PromptlyReady | Library/MicrochipCrosECLib/EC.c:93-110 | if bits 1 and 2 of the status are clear from time t on and t is at most timeout - 9995, the wait succeeds after at most max(2t, t + 5) and at most t + 10000 microseconds |
| Backoff.BusyBits | Include/Library/CrosECLib.h:547-568 | a status counts as busy exactly if bit 1 (written, not yet read) or bit 2 (processing) is set |
| Backoff.ReadyAtFirstIdleLook | Library/MicrochipCrosECLib/EC.c:93-110 | the status is looked at after 5, 10, 15, 20, 25, 30, 40, 60, 100, 180, ... microseconds, from the seventeenth look on every 10 ms, and the first look that finds both bits clear ends the wait |
| Packets.RequestFrameSumsToZero | Include/Library/CrosECLib.h:881-882 | the bytes of every request frame sum to 0 modulo 256 |
| Packets.RequestRoundTrip | Library/MicrochipCrosECLib/EC.c:172-181 | an EC that reads its packet area as the header is described recovers the command (16 bits), version (8 bits) and payload, whatever lies behind the frame |
| Packets.AcceptsExactlyValid | Library/MicrochipCrosECLib/EC.c:208-232 | a positive return is given exactly for valid non-empty responses and delivers the EC's payload; otherwise nothing is delivered |
| Packets.RefusalCodes | Library/MicrochipCrosECLib/EC.c:206-232 | a response is refused with 17 exactly for a wrong version, 12 for set reserved bytes, 14 for one longer than the buffer, 7 for a wrong sum, in this order; otherwise its length is returned |
| Packets.CorruptionRefused | Library/MicrochipCrosECLib/EC.c:223-228 | changing any one byte of a valid response outside its length field makes it refused |
| Packets.TrailingBytesIgnored | Library/MicrochipCrosECLib/EC.c:224-230 | bytes behind the frame do not influence the result |
| Packets.LengthCorruption | Library/MicrochipCrosECLib/EC.c:218-232 | exactly when a corrupted length field goes unnoticed |
| Packets.LostLengthAccepted | Library/MicrochipCrosECLib/EC.c:218-232 | any valid response whose low length byte becomes 0 is accepted, as an empty response |
| Packets.EmptyResponseUnchecked | Library/MicrochipCrosECLib/EC.c:223-232 | a response without data is accepted with any checksum |
| Packets.ResponseRoundTrip | Include/Library/CrosECLib.h:899-914 | a response built as the header is described is received as it was sent |
| HostCommand.ECChecksumBuffer | Library/MicrochipCrosECLib/EC.c:113-119 | the loop computes the sum of the first bytes modulo 256 |
| HostCommand.FillRequest | Library/MicrochipCrosECLib/EC.c:170-181 | the packet filled in place is the frame of command, version and payload |
| HostCommand.ExchangeIsBounded | Library/MicrochipCrosECLib/EC.c:183-196 | an exchange stalls at most 2,000,000 microseconds, starts the EC at most once, and leaves memory above the packet area alone |
| HostCommand.EcReceivesTheRequest | Library/MicrochipCrosECLib/EC.c:183-196 | whenever the EC is started, it parses exactly the caller's request, and what the host then sees is the answer to it |
| HostCommand.SuccessMeansAnswered | Library/MicrochipCrosECLib/EC.c:198-236 | a non-negative return is only given for an answered request with result 0, with that many payload bytes of a frame that sums to zero; a negative one delivers nothing |
| HostCommand.ReturnCodes | Library/MicrochipCrosECLib/EC.c:164-203 | -13 is returned exactly for payloads over 248 bytes, -10 only after 990005 microseconds, and codes below -1000 are exactly the EC's own results |
| HostCommand.NothingReadWhileBusy | Library/MicrochipCrosECLib/EC.c:183-204 | the EC is started, and its result read, only while bits 1 and 2 of its status are clear |
| HostCommand.PromptAnswerIsHeard | Library/MicrochipCrosECLib/EC.c:148-236 | a prompt EC that answers with a well-formed frame is heard byte for byte |
| HostParams.ParamsRoundTrip | Include/Library/CrosECLib.h:1585-1663 | the packed parameters of every flash request decode to the same request |
| HostParams.RequestReachesEc | Application/ECTool/Flash.c:13-118 | every flash request that gets the EC started is decoded by it as sent |
| WireFormat.EveryRequest | Include/Library/CrosECLib.h:1082-1663 | every flash request byte for byte: version 3, command number, command version, length and parameters, lowest byte first, with a frame that sums to zero |
| HostParams.WritePacketsAreSent | Library/MicrochipCrosECLib/EC.c:164-168 | for every EC, write size that fits, offset and data, no command of a `flash_write` is refused by the transport's size test |
| OverTheBus.BusObeys | Library/MicrochipCrosECLib/EC.c:148-236 | a command sent over the bus to a prompt EC that decodes and obeys it is heard with the reply of the modelled command, data, numbers and refusals alike |
| OverTheBus.RespondingServes | Library/CrosECNullLib/ECNull.c:182-205 | an EC that decodes its packet area, obeys and frames its answer meets that condition in every state |
| OverTheBus.FlashingOverTheBus | Application/ECTool/FWUpdate.c:305-368 | with an EC that serves each command in the state the one before left, every reply of a whole unlock, flash and lock run is heard over the bus as modelled, and the run succeeds with exactly the expected flash |
| OverTheBus.OwnState | Library/CrosECNullLib/ECNull.c:182-205 | an EC that is never busy and keeps a state of its own, changed only by what it decodes from its packet area, is at every command in the state the flash results speak of |
| OverTheBus.FlashingALivingEc | Application/ECTool/FWUpdate.c:305-368 | flashed over the bus, such an EC ends with exactly the expected flash in its own state, and the host has heard every reply |
| OverTheBus.SomeEcLives | Library/CrosECNullLib/ECNull.c:182-205 | there is such an EC for every run |
| MappedMemory.StringLengthFindsNul | Library/MicrochipCrosECLib/EC.c:134-142 | a string read stops at the first NUL, or at the end of the mapped memory |
| MappedMemory.ReadCountMeans | Library/MicrochipCrosECLib/EC.c:121-146 | a read is refused exactly beyond byte 255, and otherwise answered in full; a string has at least one byte unless it starts at the end |
| Microchip.TransferHead | Library/MicrochipCrosECLib/EC.c:38-49 | the unaligned head moves the bytes up to the next dword boundary and nothing else |
| Microchip.TransferDwords | Library/MicrochipCrosECLib/EC.c:51-69 | the dword loop moves whole dwords while the host's address equals the EC's auto-incremented one |
| Microchip.TransferTail | Library/MicrochipCrosECLib/EC.c:71-81 | the tail moves the remaining one to three bytes |
| Microchip.ECTransfer | Library/MicrochipCrosECLib/EC.c:35-83 | for every address, size and direction the register accesses copy exactly max(size, head) consecutive bytes and change nothing else on either side |
| Microchip.SendCommand | Library/MicrochipCrosECLib/EC.c:148-236 | the backend performs exactly `Exchange`: return code, buffer contents and EC state |
| Microchip.ReadMemory | Library/MicrochipCrosECLib/EC.c:121-146 | count, contents, and exactly how far the caller's buffer is written (at most 3 bytes past the count) |
| Microchip.ReadString | Library/MicrochipCrosECLib/EC.c:134-142 | byte-wise string reads leave the string and the overrun of the last transfer in the buffer |
| Azalea.PortReachesAddress | Library/AzaleaCrosECLib/EC.c:24-30 | the packet area is reached at ports 0x800 to 0x8FF, the mapped memory at 0xE00 to 0xEFF, each byte at its own address |
| Azalea.PortByPage | Library/AzaleaCrosECLib/EC.c:24-30 | the low byte of an address selects the port in the page at 0x800 below 0x100, 0xE00 below 0x1000, and 0xF00 above |
| Azalea.SamePort | Library/AzaleaCrosECLib/EC.c:24-27 | exactly which 16-bit addresses share a port |
| Azalea.ECTransfer | Library/AzaleaCrosECLib/EC.c:23-39 | for every 16-bit address, size and direction, exactly the bytes of the consecutive ports from the address's port on are moved; inside one of the two pages that is a copy of exactly the requested bytes |
| Azalea.SendCommand | Library/AzaleaCrosECLib/EC.c:104-192 | the second backend performs exactly `Exchange` as well |
| Azalea.ReadMemory | Library/AzaleaCrosECLib/EC.c:77-102 | count and contents, writing exactly the counted bytes |
| Backends.SameExchange | Library/AzaleaCrosECLib/EC.c:104-192 | the two backends return the same code and payload and leave the same EC; a negative return leaves the buffer unchanged |
| Backends.SameMemory | Library/AzaleaCrosECLib/EC.c:77-102 | both memory reads return the same count and bytes, in string mode too |
| Fmap.FirstAlignedSignature | Library/FmapLib/Fmap.c:7-9 | the map found is the first 8-aligned signature, and none is found only if there is none |
| Fmap.GetImageFlashArea | Library/FmapLib/Fmap.c:11-19 | the loop returns the result of the search |
| Fmap.AreaFindsFirst | Library/FmapLib/Fmap.c:13-18 | the search finds the first area with the name, or none has it |
| FmapFacts.PackedMapIsFound | Library/FmapLib/Fmap.c:7-9 | a map behind any prefix is found if it is 8-aligned and the first such place with the text "__FMAP__" |
| FmapFacts.PackedAreaIsFound | Library/FmapLib/Fmap.c:11-19 | round trip: whatever records (offset, size, 32-byte name, flags) are packed behind the 56-byte header, the search for a name returns position 56 + 42 k of the first that has it, and reads back its offset |
| FmapFacts.BoardOfPacked | Application/ECTool/FWUpdate.c:211-231 | the board of an image is what stands before the first '_' or '-' where the first record named RO_FRID points, or its first 32 characters |
| FmapFacts.VersionOfPacked | Library/CrosECNullLib/ECNull.c:97-114 | the version report copies 32 bytes from where the first records named RO_FRID and RW_FWID point, and keeps what is not found |
| EcDevice.ProgrammedInPieces | Library/CrosECNullLib/ECNull.c:140-142 | a write in two pieces is one write |
| EcDevice.EraseThenProgram | Library/CrosECNullLib/ECNull.c:140-154 | erasing and then writing stores the data, whatever was there |
| EcDevice.Device.constructor | Library/CrosECNullLib/ECNull.c:232-238 | the simulated EC starts erased, with zero counters and its built-in version |
| FmapFacts.NothingWithoutMap | Application/ECTool/FWUpdate.c:211-216 | an image without an aligned __FMAP__ has no board, and a flash without one keeps its version report |
| Simulated.FirstVersions | Library/CrosECNullLib/ECNull.c:97-100 | its first RW version is the text fake_0.0.1, its first RO version empty, both 32 bytes |
| Simulated.Replies | Library/CrosECNullLib/ECNull.c:116-205 | what the simulated EC answers to each request: 24 bytes with write size 240, the bytes read, the number of bytes written, 0, or -1 for what it does not know |
| Simulated.Effects | Library/CrosECNullLib/ECNull.c:137-159 | an erase leaves 0xFF in exactly its range and counts its bytes, a write counts its own |
| Simulated.VersionReply | Library/CrosECNullLib/ECNull.c:97-114 | the report has 100 bytes, first the RO and then the RW version |
| EcDevice.Device.ProgramBytes | Library/CrosECNullLib/ECNull.c:140-142 | new byte = old byte AND data byte in the range, others unchanged |
| EcDevice.Device.ReportVersion | Library/CrosECNullLib/ECNull.c:97-114 | the version strings are those the flash's own map points to, and stay as they were if not found |
| EcDevice.Device.SendCommand | Library/CrosECNullLib/ECNull.c:182-205 | every command changes the EC as its fault says and is entered in the log |
| Flash.FlashReadBytes | Application/ECTool/Flash.c:13-28 | the loop performs `ReadRun`, and on success the caller's buffer holds what was received and is otherwise unchanged |
| Flash.FlashWriteBytes | Application/ECTool/Flash.c:30-54 | the loop performs `WriteRun` on the caller's bytes |
| Flash.FlashEraseAsync | Application/ECTool/Flash.c:56-81 | starting and polling an erase performs `EraseAsyncRun` |
| Flash.FlashEraseBytes | Application/ECTool/Flash.c:83-118 | choosing the version, erasing and kicking with HELLOs performs `EraseRun` |
| ReadFacts.ReadExact | Application/ECTool/Flash.c:13-28 | on every EC, whatever its reads deliver, a read that succeeds returns the flash contents exactly if in every packet the bytes delivered are the flash's and those left undelivered were in the packet buffer already; reading changes nothing |
| ReadFacts.TrueReadsAreExact | Application/ECTool/Flash.c:13-28 | it returns them if every packet delivered all of what the flash holds |
| ReadFacts.FullReadIsExact | Application/ECTool/Flash.c:13-28 | on an EC that delivers no false bytes it returns them if every reply returned the number of bytes asked for |
| FlashFacts.WriteRunConfined | Application/ECTool/Flash.c:30-54 | on every EC, at every command of a write, bytes outside its range are unchanged |
| FlashFacts.EraseRunConfined | Application/ECTool/Flash.c:56-118 | the same for an erase with all its retries, which wait 2 seconds at most |
| FlashFacts.WriteMeaning | Application/ECTool/Flash.c:30-54 | on an EC that obeys, a write clears exactly the bits the data clears, independent of the reported write size, and counts its bytes |
| FlashFacts.EraseMeaning | Application/ECTool/Flash.c:83-118 | on an EC that obeys, an erase sets exactly its range to ones, on the synchronous and the asynchronous path |
| ReadFacts.EraseWriteRead | Application/ECTool/Flash.c:13-118 | erase, write and read return any data of any size |
| FlashFacts.PollLoopMeaning | Application/ECTool/Flash.c:74-78 | polling repeats one command with one pause each until the first answer without error or the last try, and returns the last answer |
| FlashFacts.EraseResult | Application/ECTool/Flash.c:101-117 | a failed synchronous erase is reported as success exactly if one of the next twenty HELLOs is answered; the flash is as the erase left it |
| FlashFacts.EraseMayLie | Application/ECTool/Flash.c:105-117 | for every flash and range there is an EC with which an erase reports success and has changed nothing |
| FlashFacts.EraseAsyncResult | Application/ECTool/Flash.c:56-81 | a started asynchronous erase is reported as success exactly if one of the four questions for its result is answered; a refused start is reported at once |
| FlashFacts.ErrorsEndReadAndWrite | Application/ECTool/Flash.c:13-54 | on every EC reading and writing stop at the first error, the size query included, and return its code; 0 means that every command succeeded |
| FlashFacts.EraseRequests | Application/ECTool/Flash.c:56-118 | on every EC an erase asks for the versions of command 0x13; with version 1 it sends sub-command 1 and up to four times 2, half a second apart; without, version 0 and up to twenty HELLOs, a tenth of a second apart |
| ReadFacts.ShortReadsRepeat | Application/ECTool/Flash.c:16-26 | any read longer than a packet may return its first packet over and over, with success |
| FlashPackets.PacketBound | Application/ECTool/Flash.c:40-52 | the step is the largest multiple of the write size in 248 bytes; it is positive exactly up to 248, and a full packet fits exactly if 8 bytes are left over |
| FlashPackets.CommonSizesFit | Application/ECTool/Flash.c:40-42 | every multiple of 16 up to 240 is a write size that fits |
| FlashPackets.WritePackets | Include/Library/CrosECLib.h:1506-1507 | for every EC that reports a write size that fits, after the size query every command of a `flash_write` is a non-empty packet that fits; if base, size and the reported write size are multiples of the write block, so are the offset and size of every packet |
| FlashPackets.WritesFitIff | Application/ECTool/Flash.c:40-52 | for every write size up to 248, all packets of a write stay inside the command buffer if and only if the size fits or the whole write is at most 240 bytes |
| FlashPackets.SmallSizesDoNotFit | Application/ECTool/Flash.c:40-46 | 1, 2, 4 and 8 do not fit: the step is the whole buffer |
| FlashPackets.LargeSizesStall | Application/ECTool/Flash.c:40-46 | above 248 the step is zero and every packet empty |
| Regions.MapsTileTheImage | Application/ECTool/FWUpdate.c:58-98 | every flash map tiles the 512 KiB image without gap or overlap, starting with RO |
| Boards.MapByName | Application/ECTool/FWUpdate.c:58-98 | an image with the ID of one of the eight boards gets the map with that name; exactly hx20 and hx30 need unlocking |
| Boards.NoMapForUnknown | Application/ECTool/FWUpdate.c:243-260 | an ID gets no map exactly if it matches none of the eight names |
| Layouts.OnlyAskedIsTouched | Application/ECTool/FWUpdate.c:58-98 | on every EC, at every command of every run: only the addresses that the options ask for on the image's board have changed, in literal addresses for --ro, --rw, --all and neither |
| Layouts.VitalDataIsKept | Application/ECTool/FWUpdate.c:262-268 | on every EC, without --all: 0x3C000 to 0x3FFFF and 0x79000 to 0x7FFFF on hx20 and hx30, and 0x7F000 to 0x7FFFF on the other six boards, are as at the start at every command |
| Layouts.AskedIsFlashed | Application/ECTool/FWUpdate.c:262-355 | on every EC, a success that could rely on its reads has put the image exactly at the addresses asked for, and left all others |
| Layouts.NotificationsByBoard | Application/ECTool/FWUpdate.c:305-368 | on hx20, hx30 and unknown boards nothing is erased or written before notifications 0 and 1 succeeded, and a success ends with 3 and 2; on the other six none is ever sent |
| Regions.ParseArguments | Application/ECTool/FWUpdate.c:123-139 | the loop computes `Parse` |
| Regions.ParseMeans | Application/ECTool/FWUpdate.c:123-139 | an option is on exactly if it occurs before the first non-option, which is the file |
| Regions.ForceCounts | Application/ECTool/FWUpdate.c:124-125 | the force level is the number of -f options |
| Regions.OptionOrderIrrelevant | Application/ECTool/FWUpdate.c:123-139 | order and repetition of options do not matter, except that -f is counted |
| Regions.ComputeMask | Application/ECTool/FWUpdate.c:262-281 | the loop computes the flash mask |
| Regions.SelectionClosedForm | Application/ECTool/FWUpdate.c:118-281 | the closed form of region selection for every command line and map |
| Regions.VisitsDescend | Application/ECTool/FWUpdate.c:318-325 | the highest-bit loop visits exactly the set bits, each once, in descending order |
| Reflash.TruncateInPlace | Application/ECTool/FWUpdate.c:203-209 | the loop cuts the version string at its first delimiter, in place |
| Reflash.TruncatedMeans | Application/ECTool/FWUpdate.c:203-209 | the cut version is, as a C string, what stands before its first '_', '-' or NUL |
| Reflash.CurrentBoardMeans | Application/ECTool/FWUpdate.c:200-209 | the running board's ID comes from the RO version, or from the RW one if that is empty |
| Reflash.FirstMatchingMap | Application/ECTool/FWUpdate.c:243-249 | the map chosen is the first in the list that matches the image's ID |
| Reflash.FindMap | Application/ECTool/FWUpdate.c:243-249 | the loop over the list returns the result of the search |
| Reflash.IdLength | Application/ECTool/FWUpdate.c:227-231 | the image's ID ends before its first '_' or '-', or after 32 characters |
| Reflash.CheckReadyForECFlash | Application/ECTool/FWUpdate.c:14-38 | the check performs `CheckReadyRun` with one memory read for the ID and three more |
| Reflash.FlashRegion | Application/ECTool/FWUpdate.c:327-354 | erase, write, read back and compare perform `RegionRun` |
| Reflash.FlashRegions | Application/ECTool/FWUpdate.c:318-355 | the loop over the mask performs `PhaseRun` |
| Command.FindImageBoard | Application/ECTool/FWUpdate.c:211-231 | the ID is read where the image's own map says |
| Command.ChooseFlashMap | Application/ECTool/FWUpdate.c:211-281 | the gate, the choice of the map and the mask |
| Command.Prepare | Application/ECTool/FWUpdate.c:123-281 | everything before the countdown performs `PrepareRun` |
| Command.Countdown | Application/ECTool/FWUpdate.c:284-293 | seven seconds, cancelled by a key |
| Outcomes.WhyItStops | Application/ECTool/FWUpdate.c:141-260 | each status before the countdown has exactly its one cause: usage, readiness, opening, size 0x80000, reading, the version query, the board |
| Outcomes.CountdownEnds | Application/ECTool/FWUpdate.c:284-293 | a key pressed while i is shown ends the countdown 8 - i seconds after its start; without any it takes seven |
| Outcomes.AfterThePlan | Application/ECTool/FWUpdate.c:284-390 | after that a run is aborted exactly by a key; an unforced one is checked again; and then only success or a device error is left |
| Command.Unlocked | Application/ECTool/FWUpdate.c:305-368 | unlock, flash and lock perform `UnlockedRun` |
| Command.CmdReflash | Application/ECTool/FWUpdate.c:100-390 | the command performs `ReflashRun` |
| PhaseFacts.VerificationExact | Application/ECTool/FWUpdate.c:327-354 | on every EC flashing a region touches only it at every command; if verification passes, the region holds the image exactly if reading back was right packet by packet |
| PhaseFacts.RegionReturns | Application/ECTool/FWUpdate.c:327-354 | a region returns the first error of erase, write and read, or -1 if what was read is not the image |
| PhaseFacts.TrueReadBack | Application/ECTool/FWUpdate.c:338-348 | it was if every read that succeeded delivered all of what the flash holds |
| PhaseFacts.RegionMeaning | Application/ECTool/FWUpdate.c:327-354 | on an EC that obeys it succeeds, with written <= erased <= written + size at every command |
| PhaseFacts.PhaseSafety | Application/ECTool/FWUpdate.c:318-355 | on every EC, at every command and at the end: the run is at one selected region, its modifying commands stay in that region, everything not selected or below it is as at the start, and if reading back can be trusted all selected regions above it hold the image |
| PhaseFacts.VerifiedMeansFlashed | Application/ECTool/FWUpdate.c:318-355 | on every EC, a run without error leaves exactly the image in the selected regions and the old flash elsewhere if and only if reading back could be trusted for every region |
| PhaseFacts.TrueReadsAreTrusted | Application/ECTool/Flash.c:17-26 | it could be if every read that succeeded delivered all of what the flash holds; on an EC that delivers no false bytes they did exactly if every reply was full, and always if none is cut short |
| Freshness.FreshMeans | Application/ECTool/Flash.c:16-25 | an image is fresh exactly if at every packet end its byte differs from the one a packet earlier, or from 0 in the first packet |
| Freshness.RepetitionIsStale | Application/ECTool/Flash.c:16-25 | data that repeats the byte at a packet end a packet later is not fresh, whatever the rest |
| Freshness.FreshPhaseIsTrusted | Application/ECTool/FWUpdate.c:327-354 | on every EC that delivers no false bytes, however few it delivers, reading back can be trusted for every region in which the image is fresh |
| StaleImages.VerificationIsSoundIff | Application/ECTool/FWUpdate.c:327-354 | passing verification means that the region holds the image, on every EC that delivers no false bytes, if and only if the image is fresh in it |
| StaleImages.PhaseIsSoundIff | Application/ECTool/FWUpdate.c:318-355 | a phase without error leaves exactly the expected flash, on every such EC, if and only if the image is fresh in every selected region |
| StaleImages.LiesAreNotNoticed | Application/ECTool/FWUpdate.c:338-354 | on ECs that may deliver false bytes, passing verification means nothing for any region that is not empty |
| PhaseFacts.BootBlockLast | Application/ECTool/FWUpdate.c:319-321 | on every EC, if every read delivered all of what the flash holds, at every command of a run the first region is untouched or all other selected regions hold the image |
| PhaseFacts.PhaseMeaning | Library/CrosECNullLib/ECNull.c:137-158 | on an EC that obeys, at every command erased and written bytes are in balance up to the size of the very region the run is at, and they end up grown by the selected sizes |
| PhaseFacts.PhaseEndToEnd | Application/ECTool/FWUpdate.c:318-355 | on an EC that obeys the phase succeeds with exactly the expected flash, for every image, flash, region list and mask |
| CommandFacts.Preparation | Application/ECTool/FWUpdate.c:141-281 | before the countdown at most one version query is sent; a run gets a plan exactly if filename, readiness (unless forced), file, version reply, board ID, gate and map say so, and it is the one they determine |
| CommandFacts.ReadinessOnce | Application/ECTool/FWUpdate.c:14-38 | the check passes exactly with 'E', 'C' at 0x20, bit 0 of 0x4C, and either not bit 1 or 5 times the 32-bit value at 0x48 at least that at 0x58 and this positive; it divides by zero exactly with power, a battery and 0 at 0x58 |
| CommandFacts.UnlockedSafety | Application/ECTool/FWUpdate.c:305-368 | the flash is opened before any flash command and while untouched, closed only when complete, and a successful run ends by closing it; complete includes the image if all reads were true, or none false and the image fresh |
| CommandFacts.CommandSafety | Application/ECTool/FWUpdate.c:100-390 | on every EC every command after the version query had all clearances (file, gate, countdown, both readiness checks) and was lawful; any status but success or device error means an untouched flash |
| CommandFacts.ClearedRuns | Application/ECTool/FWUpdate.c:123-303 | a run whose checks all pass, without a key pressed, has sent one version query, left the flash alone, and goes on to flash |
| CommandFacts.CommandReads | Application/ECTool/Flash.c:17-26 | over a whole run on an EC that delivers no false bytes, all reads were true exactly if every reply was full |
| EndToEnd.SuccessIsExpected | Application/ECTool/FWUpdate.c:100-390 | on every EC, a run that reports success and could rely on what it read has left exactly the expected flash |
| EndToEnd.ReflashSucceeds | Application/ECTool/FWUpdate.c:100-390 | on an EC that obeys, a run whose arguments, file, board and readiness pass every check succeeds with exactly the expected flash and work |
| EndToEnd.FlashReportsImage | Library/CrosECNullLib/ECNull.c:97-114 | a flash that starts with an image's self-describing first region reports the image's version |
| EndToEnd.VersionAfterReflash | Library/CrosECNullLib/ECNull.c:97-114 | on every EC, after a run that succeeded, flashed RO and could rely on what it read, a version query that does not go rogue reports the image's RO_FRID string |
| Example.PlanExists | Application/ECTool/FWUpdate.c:123-281 | for every board ID there is an image with which every command line gets a plan: unforced on a ready board that matches and is listed, forced twice on any |
| Example.BoardIsCleared | Application/ECTool/FWUpdate.c:58-98 | on every board in the list there is a state and an image for that board, with either delimiter in either version string, with which every command line with a file has every clearance, unforced too |
| Example.EveryBoardUpdates | Application/ECTool/FWUpdate.c:100-390 | from there, on an EC that obeys, every run that flashes RO succeeds and the EC then reports the image's version |
| Limits.GateIsPrefix | Application/ECTool/FWUpdate.c:227-241 | the gate accepts an image ID without a NUL exactly if it is a prefix of the running board's, and one with a NUL exactly if the two are equal as C strings |
| Limits.GateIsEqualityIff | Application/ECTool/FWUpdate.c:232-241 | an accepted ID is equal as a C string exactly if the running board's is no longer than the image's |
| Limits.ShorterIdPasses | Application/ECTool/FWUpdate.c:232 | an ID "hx" passes on a board "hx20" |
| Limits.EmptyIdPassesEverywhere | Application/ECTool/FWUpdate.c:227-249 | an empty ID passes on every board and selects the map of hx20 |
| Limits.LockAttemptIff | Application/ECTool/FWUpdate.c:305-368 | locking is attempted exactly if both opening notifications and every region succeeded |
| Limits.FailureLeavesUnlocked | Application/ECTool/FWUpdate.c:318-372 | a failure while flashing is followed by no notification at all |
| Limits.LockOutcome | Application/ECTool/FWUpdate.c:357-372 | once locking is attempted the flash is complete; the run succeeds exactly if both closing notifications do, and otherwise the last command is the one that failed, the second after the first succeeded |
| Witnesses.LeftOpen | Application/ECTool/FWUpdate.c:305-372 | for every board that needs unlocking and every run that gets as far as flashing there is an EC with which it fails, opened and never locked |
| Example.LeftOpenOnEveryBoard | Application/ECTool/FWUpdate.c:305-372 | such runs exist on every listed board that needs unlocking, for every command line with a file |
| Witnesses.WrongFlashSucceeds | Application/ECTool/Flash.c:16-26 | for every run that gets as far as flashing, if the image is stale in some selected region there is an EC that delivers no false byte and with which the command reports success over a wrong flash |
| Witnesses.SuccessIsSoundIff | Application/ECTool/FWUpdate.c:100-390 | whenever a run with this plan reports success, on every EC that delivers no false bytes, exactly the expected flash is there, if and only if the image is fresh in every selected region |
| Example.WrongFlashOnEveryBoard | Application/ECTool/FWUpdate.c:318-355 | such runs exist on every listed board, for every command line with a file |
| Limits.MaskLoopIsListRun | Application/ECTool/FWUpdate.c:318-355 | the loop over the mask is the work for the list of selected regions in descending order |

## Left out

- Microchip.ReadMemory: offset + length is taken not to wrap; the source adds them as 64-bit values, so an offset near 2^64 would pass its bound test.
- Azalea.ReadMemory: the same.
- Flash.FlashWriteBytes: only for write sizes that fit (`Fitting`); outside them the source divides by zero (0), never advances (above 248), or overruns its command buffer, and `PacketBound` says exactly which is which.
- FlashPackets.WritePackets: only for ECs that report a write size that fits; `WritesFitIff` covers the others that the loop can advance with.
- HostParams.WritePacketsAreSent: only for ECs that report a write size that fits.
- EcDevice.Fault: a rogue EC may report any write size that fits, not one that does not, for the same reason.
- HostCommand.Exchange: only for response buffers up to 248 bytes, because the source would overrun its packet buffer beyond that.
- Microchip.Registers: the auto-increment on the upper 16-bit register is taken from the comments of the source; the MEC172x data sheet is not part of this model.
- EcDevice.Device.SendCommand: version 1 of erase, which the simulated EC itself never reports (a `Profile` may), is modelled as its description in the command header says, with the erase done at once and every question for its result answered.
- EcDevice.Device.flashBytesErased: the counters are unbounded, so their 32-bit overflow is not captured.
- Reflash.ImageReadable: images whose flash map leads outside the image are excluded; the source reads past its buffer there.
- Azalea.ECTransfer: what a port without memory reads as is left open, and port numbers do not wrap at 16 bits; the callers use only ports with memory.
- OverTheBus.FlashingOverTheBus: the version query, which comes before it, is not carried over the bus, and neither are commands that go rogue.
- Flash size, region lists and image size are generic up to 16 regions where the source fixes them; the three maps are instances.
- The time the simulated EC spends inside a command; only the host's own stalls are counted.
- `ScanMem64`, `CompareMem`, `CopyMem` and `AsciiStrnCmp` are EDK2 code that is not in this repository; they are used by what they promise.
- Shell files, memory allocation, printing and colours: reading the file is a parameter with its four outcomes, the keys pressed during the countdown another, and allocation always succeeds.
- The other commands of ECTool, the console log and the message texts: thin wrappers around one command.
- Drivers, protocol installation and ACPI tables: firmware plumbing.
- Protocol version 4: no code here implements it.
