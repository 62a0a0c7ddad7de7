# Verified models of the MiCO bootloader and watchdog supervisor

The firmware SDK contains a handful of stateful algorithms on which a device in the field depends: the
installer of over-the-air updates, the YMODEM transfer of the bootloader's console, the supervisor that feeds
the hardware watchdog, and a one-time migration of the RF driver between two flash chips. This project models
them in Dafny and proves what they keep over whole runs.

`dafny verify dfyconfig.toml` checks everything.

| file | models |
|---|---|
| `Flash.dfy` | NOR flash behind the partition driver: erase to 0xFF, programming that only clears bits, writes torn by a power loss, and four fault modes |
| `CheckSum.dfy`, `Chunks.dfy` | checksums as a fold of a byte step; the two ways in which loops cut a range into 4096-byte chunks |
| `OtaUpdate.dfy` | `update()` and its helpers, as methods over the flash device, proved against `CleanBoot` (an undisturbed run) and `Interrupted` (a run cut short anywhere) |
| `OtaRecords.dfy` | what a boot does, on the bytes of the boot record and of each partition |
| `OtaCrashSafety.dfy`, `OtaWitnesses.dfy` | what follows for any series of power losses and for failing calls; flash contents of the SC3165 board that show the weaknesses |
| `StringUtils.dfy`, `NumberText.dfy` | `Int2Str` and `Str2Int`; which number each text stands for |
| `YmodemPacket.dfy`, `YmodemHeader.dfy` | packets: receiving them byte by byte, the file header, its round trip, and the size read from a header that runs on into the stack |
| `YmodemReceiver.dfy`, `YmodemSessions.dfy`, `YmodemAnswers.dfy` | `Ymodem_Receive` as a method proved against the step function `Step`; what holds of every session; what it makes of the bytes on its line, and what it answers |
| `YmodemSender.dfy`, `YmodemTransfers.dfy`, `YmodemStreams.dfy` | `Ymodem_Transmit` as a method proved against the machine `OnReply`/`Run`; what holds of every transfer, and which loops end on endless replies |
| `YmodemOutcome.dfy`, `YmodemWire.dfy` | which transfers succeed, on the replies; what goes over the wire, byte by byte |
| `YmodemLink.dfy`, `YmodemLinkSafety.dfy` | both machines joined by channels that lose and delay whole packets and replies: what holds in every state |
| `YmodemRecovery.dfy`, `YmodemClosing.dfy` | from which states a transfer can still be completed, before the first EOT and after it |
| `YmodemRegion.dfy` | the region a file is received into, and which files are written beyond it |
| `SystemMonitor.dfy` | the supervisor on a 32-bit clock and the watchdog |
| `RfMigration.dfy` | `init_platform_bootloader` of the SC3165 board |
| `BootEntrance.dfy` | write protection on the paths to the application |

The code that changes state step by step is modelled by classes and loops; each such method is proved against
a function or relation on values, and the theorems are lemmas about those. Clocks, the serial line and the
faults of the flash enter as parameters or as choices left open. The byte steps of CRC-16 and CRC-8 are arbitrary
functions, so nothing rests on a particular polynomial.

## What the proofs show to be wrong

The models follow the code, also where this shows a weakness:

* `checkcrc` never reports a mismatch (Bootloader/Update_for_OTA.c:90-95); the checksum guards nothing but the
  length, and some record with the wrong checksum is installed whatever the checksum function
  (`OtaWitnesses.WrongChecksumInstalled`). What does guard the installation is the read-back of every chunk
  (`OtaUpdate.Installer.Update`).
* A read that fails during the checksum pass while the power stays on makes `update()` erase the staged image
  and keep the record; the next boot then installs blank flash. A staged update outlives failing calls exactly if
  its record has checksum 0xFFFF or length 0, or the image is blank (`OtaCrashSafety.OutlivesFaultsIff`;
  `OtaCrashSafety.LoseImage` is the losing run).
* A record whose image is longer than the staging area, with checksum 0xFFFF, is never finished: each boot
  erases the destination again (`OtaCrashSafety.CarriedOutIffStaged` gives the exact condition,
  `OtaWitnesses.OverlongRecord` such a record for the SC3165 board, whose application partition is larger than
  its staging partition).
* The receiver holds the data against the device, never against the region it has erased (Bootloader/ymodem.c:221-240),
  and the announced size against the region plus one byte (Bootloader/ymodem.c:199). A file that gets through is
  written inside the region if and only if its size, rounded up to a multiple of 128, is at most that of the region
  (`YmodemRegion.RegionKeptIff`); otherwise bits are cleared behind it. So a file one byte longer than the region is
  admitted and delivered, with its last byte programmed over what stands there (`YmodemRegion.OneByteTooLong`). Some
  sender can make the receiver write behind the region if and only if the device has room for the first multiple of
  128 bytes that the region does not hold (`YmodemRegion.CanOverrunIff`); `YmodemSessions.OverrunsRegion` is such a
  session.
* `Int2Str` writes no terminator, so the YMODEM header goes on with what the stack holds behind the digits. The
  receiver reads the right size n > 0 exactly if the cell behind the digits is NUL or a space, or digits follow and
  the longer number, with a k or m behind it, is n modulo 2^32 (`YmodemHeader.SizeReadIff`); size 4 followed by
  294967300 and size 1048576 followed by 1m are such texts (`YmodemHeader.WrappedSizes`).
* The receiver answers a repeated block with NAK, so a lost ACK is never made up for
  (`YmodemLinkSafety.LostAckNeverRecovers`, `YmodemRecovery.FirstAckLost`), while lost packets are, as long as a
  retry is left: `YmodemRecovery.RecoversIff` gives the exact condition. Behind the first EOT the file is in flash,
  but the size is reported only if the closing header arrives, which `YmodemClosing.ReportsIff` decides.
* The loops around the header and the closing header count timeouts only. On an endless line of NAKs they never end
  (`YmodemStreams.HeaderLivelock`, `YmodemStreams.OfferGoesOnIff`), and a lost ACK of the header leads there: sender
  and receiver go round for any number of laps in which nothing is lost and nothing times out
  (`YmodemRecovery.HeaderGoesRound`).
* The supervisor sees a miss only for delays up to 2^32 - 3000 ms (`SystemMonitor.SupervisedExactly`).
* A migration source that does not match its CRC-8 halts every boot, each time after erasing and copying again
  (`RfMigration.MismatchNeverCommits`).

## Model

| member | source | states |
|---|---|---|
| `Flash.Device.EraseAll` | Platform/MCU/mico_platform_common.c:578-609 | a whole-partition erase leaves 0xFF everywhere or, failing, nothing changed; it fails only for an absent partition, want of power or a fault the mode allows |
| `Flash.Device.Write` | Platform/MCU/mico_platform_common.c:611-643 | a good write clears bits inside its range only and advances the offset; a failing one may leave each cell at any stage between old and new; out-of-range writes are refused unchanged; a write of nothing succeeds, in range or not, and changes nothing |
| `Flash.Device.Read` | Platform/MCU/mico_platform_common.c:645-677 | a good read fills the buffer from the partition and advances the offset; zero length succeeds, out of range is refused |
| `Flash.ProgramsErased` | Bootloader/Update_for_OTA.c:202-218 | clearing bits of erased cells stores the data exactly and touches nothing else, for the bitwise AND of NOR flash |
| `Flash.TornBlankStaysBlank` | Bootloader/Update_for_OTA.c:233-237 | a torn write of 0xFF over erased cells leaves them 0xFF, which is why the record reads as blank at every stage of its rewrite |
| `Flash.AndIsBitwise` | Platform/MCU/mico_platform_common.c:611-643 | programming keeps a bit exactly if the cell and the data both have it, for every bit |
| `Flash.BetweenBits` | Platform/MCU/mico_platform_common.c:611-643 | a cell of a torn write is exactly one that has no bit it did not have, and still every bit that both the cell and the data had |
| `CheckSum.FoldConcat` | libraries/utilities/CheckSumUtils.c:84-90 | feeding two pieces in turn is feeding their concatenation, for any byte step |
| `CheckSum.FoldByte` | libraries/utilities/CheckSumUtils.c:84-90 | no byte leaves the checksum alone and one byte is one step, which with `FoldConcat` determines it |
| `CheckSum.Crc16OfZeros` | libraries/utilities/CheckSumUtils.c:92-98 | the finished checksum is that of the bytes and two zeros behind them |
| `Chunks.SameChunks` | Bootloader/Update_for_OTA.c:76-88 | the `while` chunking of `CheckCrc` and the `for i <= size` chunking of `CopyImage`, which both methods prove to be what they visit, go through the same non-empty chunks, which tile the whole range, for every length |
| `Chunks.FoldsWhole` | Bootloader/Update_for_OTA.c:76-90 | a checksum fed along any such tiling equals the one-shot checksum |
| `OtaUpdate.Installer.CheckCrc` | Bootloader/Update_for_OTA.c:58-96 | the error is that of the reads alone: with power it is clear exactly if the checksum is 0xFFFF, the length 0, or the image inside the staging area; checksum 0xFFFF or length 0 never fail; the chunks visited are `WhileChunks`, the logged value is the CRC of the whole image |
| `OtaUpdate.Installer.UpdateLogCheck` | Bootloader/Update_for_OTA.c:98-131 | the verdict on a record is `Decide`, in the source's order of checks, or a CRC error from a failed read, which only a record that asks for a checksum pass can meet; an accepted record with the letter B, A or D is for the bootloader, the application or the RF driver; a rejected record leaves a small buffer as it was |
| `OtaUpdate.Installer.ScanStaging` | Bootloader/Update_for_OTA.c:165-189 | without a valid record the staging area is erased if and only if some byte is not 0xFF, for every partition length, although the last short read compares all 4096 cells |
| `OtaUpdate.DirtyChunk` | Bootloader/Update_for_OTA.c:177-186 | a cell found dirty is a dirty cell of the partition, not a stale one of the buffer |
| `OtaUpdate.Installer.WriteAndCompare` | Bootloader/Update_for_OTA.c:215-223 | success means the cells read back equal the data, even when the driver stores something else; writing over erased cells of a faithful driver always succeeds |
| `OtaUpdate.Installer.CopyImage` | Bootloader/Update_for_OTA.c:204-224 | on success every byte of the image is in the destination, and the chunks visited are `ForChunks`, so each was checked once; with steady power it fails only at the first chunk that overruns the staging area, having copied exactly the chunks before |
| `OtaUpdate.CopyGrows` | Bootloader/Update_for_OTA.c:215-223 | one more chunk extends the copied prefix and keeps the rest of the erased destination blank |
| `OtaUpdate.CopyStops` | Bootloader/Update_for_OTA.c:124-124 | the chunk at which an overlong image fails |
| `OtaUpdate.Installer.RewriteParameters` | Bootloader/Update_for_OTA.c:228-238 | blanks the record and keeps every parameter byte; cut short it leaves all as it was, or the partition at some stage of the rewrite, and then the log ends in that erase or that broken write |
| `OtaUpdate.ClearedTears` | Bootloader/Update_for_OTA.c:233-237 | the erased and the rewritten partition are both stages of the torn rewrite |
| `OtaUpdate.Installer.ClearRecord` | Bootloader/Update_for_OTA.c:228-244 | the staging area is erased only after the record is blank |
| `OtaUpdate.Installer.InstallAndClear` | Bootloader/Update_for_OTA.c:191-245 | cut short anywhere: record and image intact, or image in place and record on its way to blank, or all done |
| `OtaUpdate.Installer.Update` | Bootloader/Update_for_OTA.c:134-250 | a run that power outlives yields `CleanBoot` and `CleanStatus`; a run cut short yields `Interrupted`; success means the image is in place even under a corrupting driver; parameters are lost only between their erase and the end of their write; without a record it erases exactly if staging is dirty; when calls fail with the power on, `FaultyRun`, which differs from `Interrupted` only for records that ask for a checksum pass |
| `OtaRecords.AcceptedIffAsked` | Bootloader/Update_for_OTA.c:98-131 | on the bytes: a record is accepted for p and n if and only if it has U, the letter of p, the staging address and the length n, p can hold n, and the checksum is 0xFFFF or the staging area holds n |
| `OtaRecords.RejectedInOrder` | Bootloader/Update_for_OTA.c:102-122 | each other verdict, on the bytes: the first reason in the order blank, tag, address, letter, length |
| `OtaRecords.GoesWhereItsLetterSays` | Bootloader/Update_for_OTA.c:115-120 | an undisturbed boot puts the image into the partition of its letter, 0xFF behind it, blanks record and staging area, keeps the parameters and changes no other partition |
| `OtaRecords.BreaksOffInStaging` | Bootloader/Update_for_OTA.c:204-224 | an image longer than the staging area is copied up to the last whole chunk, and nothing else changes |
| `OtaRecords.AskingNothing` | Bootloader/Update_for_OTA.c:165-189 | a record that asks for nothing costs the staged image and nothing else |
| `OtaRecords.LeavesAllAlone` | Bootloader/Update_for_OTA.c:134-165 | without the partitions it needs, or the one its letter names, a boot changes nothing, and with which error it ends |
| `OtaCrashSafety.TornRecordIsBlank` | Bootloader/Update_for_OTA.c:233-237 | however torn the rewrite, the 24 record bytes read as 0xFF |
| `OtaCrashSafety.InterruptedStaysSafe` | Bootloader/Update_for_OTA.c:134-250 | an interrupted run keeps: record and staged image both intact, or image in place and record blank |
| `OtaCrashSafety.CleanBootFinishes` | Bootloader/Update_for_OTA.c:134-250 | from every such state one undisturbed run installs the image, blanks record and staging area, changes no other partition and reports success |
| `OtaCrashSafety.SurvivesPowerLosses` | Bootloader/Update_for_OTA.c:134-250 | after any finite series of interrupted boots the state is safe and one undisturbed boot finishes the job of the first; the parameters behind the record are then those of the first boot, unless one boot of the series was cut inside the rewrite, leaving neither the old partition nor the rewritten one, and then they are what that boot left |
| `OtaCrashSafety.LossyBoot` | Bootloader/Update_for_OTA.c:134-250 | one run in which power may fail at any call: memory before and after are `Interrupted`, and parameters behind the record are lost only if the last call to the flash was the erase of their partition or a broken write to it |
| `OtaCrashSafety.RebootUntilDone` | Bootloader/Update_for_OTA.c:134-250 | the same about the code itself, with power failing in any call of any of the first runs: the memories before and after those runs form such a series, the last boot makes `CleanBoot` of the last of them, and the clause about the parameters holds over that history |
| `OtaCrashSafety.CleanBootIdempotent` | Bootloader/Update_for_OTA.c:165-189 | a second undisturbed run changes nothing; after a success there is no record and a blank staging area, so it makes no erase |
| `OtaCrashSafety.CleanBootKeepsParameters` | Bootloader/Update_for_OTA.c:228-238 | every parameter byte behind the record is kept, and the record is kept or blanked |
| `OtaCrashSafety.CarriedOutIffStaged` | Bootloader/Update_for_OTA.c:124-128 | a valid record is carried out if and only if its image fits the staging area; otherwise the record stays for ever |
| `OtaCrashSafety.FailedChecksumReadLosesImage` | Bootloader/Update_for_OTA.c:82-83 | for a record with a checksum and a length: after the failed read the next boot leaves the destination blank; the image is in place if and only if it was blank |
| `OtaCrashSafety.OutlivesFaultsIff` | Bootloader/Update_for_OTA.c:69-88 | after every run with failing calls the next boot puts the image in place, if and only if the record has checksum 0xFFFF or length 0 or the image is blank |
| `OtaCrashSafety.LoseImage` | Bootloader/Update_for_OTA.c:165-189 | the rest of the losing run on the code, as behind a checksum pass that has failed, which is itself not run: after the read of the record the scan erases the staged image, and one more boot leaves destination and record blank |
| `OtaWitnesses.OverlongRecord` | Board/SC3165/platform.c:303-354 | on the SC3165 table a record for an application as long as its partition is taken, breaks off and stays |
| `OtaWitnesses.WrongChecksumInstalled` | Bootloader/Update_for_OTA.c:90-95 | for every checksum function and one-byte image, a record with a wrong checksum installs it |
| `OtaWitnesses.DriverInstalled` | Board/SC3165/platform.c:303-354 | on the SC3165 table a D record of 128 KB, more than the bootloader's partition holds, installs the driver and leaves bootloader and application alone |
| `OtaWitnesses.BootloaderInstalled` | Board/SC3165/platform.c:303-354 | on that table a B record installs the bootloader and leaves driver and application alone |
| `StringUtils.Int2Str` | libraries/utilities/StringUtils.c:144-163 | the decimal digits without leading zeros, and not a byte behind them |
| `StringUtils.Str2Int` | libraries/utilities/StringUtils.c:165-245 | result and value of `Parse`, with its hexadecimal, k and m forms and 32-bit wrap-around; the variable keeps its value when the text is no number |
| `StringUtils.ValueOfDecimal` | libraries/utilities/StringUtils.c:144-163 | the digits stand for the number |
| `StringUtils.ParseRecovers` | libraries/utilities/StringUtils.c:165-245 | `Str2Int` recovers every 32-bit number that `Int2Str` wrote, given a NUL behind it |
| `NumberText.DecimalTexts` | libraries/utilities/StringUtils.c:202-242 | every text not behind 0x: up to ten digits, ended by NUL or, after the first, by k or m for 2^10 or 2^20, stand for their value as a signed 32-bit number; the empty text is 0; anything else is no number |
| `NumberText.HexTexts` | libraries/utilities/StringUtils.c:170-201 | every text behind 0x: one to eight hexadecimal digits of either case, ended by NUL, stand for their value as a signed 32-bit number; anything else is no number |
| `YmodemPacket.Line.ReceivePacket` | Bootloader/ymodem.c:89-138 | the byte loop computes `Receive`, whose meaning the two rows of `YmodemAnswers` below give: outcome, buffer and what is left on the line, timeouts and aborts included |
| `YmodemPacket.ReceivesFrame` | Bootloader/ymodem.c:125-137 | a packet that arrives whole is received whole over any stale buffer, and nothing behind it is consumed |
| `YmodemAnswers.PacketIff` | Bootloader/ymodem.c:103-137 | behind a start byte, for every line and buffer: a packet is received if and only if all its bytes are there and number and complement add up to 255, and then these bytes are in the buffer and gone from the line; else the receive fails |
| `YmodemAnswers.OtherwiseByFirstByte` | Bootloader/ymodem.c:97-124 | every other line: EOT, CA twice, A or a, and failure for all else; the buffer is left alone |
| `YmodemAnswers.PacketsHaveComplements` | Bootloader/ymodem.c:132-135 | whatever comes, a packet is taken only with a number and its complement |
| `YmodemAnswers.CutShort` | Bootloader/ymodem.c:125-131 | a packet that breaks off fails at the first silence: the bytes before it are in the buffer, and what comes behind it is still to be read |
| `YmodemAnswers.WrongComplement` | Bootloader/ymodem.c:132-135 | a whole packet with a wrong complement fails, and before the error limit it is answered with C and leaves flash, writes, address, size and count alone |
| `YmodemPacket.HeaderRoundTrip` | Bootloader/ymodem.c:182-195 | the receiver reads back name and size from the sender's header, for every NUL-free name and size below 2^31 that leave a zero byte in the payload |
| `YmodemPacket.HeaderNeedsTerminator` | Bootloader/ymodem.c:310-314 | for sizes from 1 to 2^27 - 1, one stray digit with a NUL behind it makes the receiver read ten times the size and more |
| `YmodemTransfers.SizeTextIsDecimal` | Bootloader/ymodem.c:310-314 | the text sent for the size is the digits alone if and only if the stack cell behind them is NUL |
| `YmodemHeader.SizeReadIff` | Bootloader/ymodem.c:190-195 | for every stack and size n > 0, and every name that leaves room in the payload for the first 16 characters of the size text: the receiver reads n if and only if the cell behind the digits is NUL or a space, or a digit and the text still denotes n modulo 2^32; the size 0 is not covered |
| `YmodemHeader.ParsesIff` | libraries/utilities/StringUtils.c:165-245 | a text that does not begin with 0 parses to n if and only if it is at most ten digits, then its end, k or m, worth n modulo 2^32 |
| `YmodemHeader.WrapsToSize` | libraries/utilities/StringUtils.c:165-245 | every such longer number that begins with the digits of n makes the receiver read n |
| `YmodemReceiver.Receiver.ReadHeader` | Bootloader/ymodem.c:185-195 | the two scans leave the terminated name and the parsed size |
| `YmodemReceiver.Receiver.Round` | Bootloader/ymodem.c:154-266 | one turn of the inner loop is one `Step` of the receiver machine on what `Receive` delivers |
| `YmodemReceiver.Receiver.YmodemReceive` | Bootloader/ymodem.c:145-273 | the nested loops compute `Session`: flash, replies, stores and result for every incoming byte stream |
| `YmodemAnswers.FailureAsksAgain` | Bootloader/ymodem.c:248-259 | a failed receive is answered with C, and the 21st in a row of a session that has begun with CA twice and 0; nothing is written |
| `YmodemAnswers.SignalsAnswered` | Bootloader/ymodem.c:160-170 | EOT and CA twice are ACKed, A and a are answered with CA twice and -3, and nothing is written |
| `YmodemAnswers.OtherNumberRefused` | Bootloader/ymodem.c:173-176 | a packet with any number but the low byte of the count is answered with NAK, and nothing else changes |
| `YmodemAnswers.DataAnswered` | Bootloader/ymodem.c:221-240 | the expected packet is ACKed and programmed at the cursor if the device has room, and else ends the session with -2 |
| `YmodemAnswers.HeaderAnswered` | Bootloader/ymodem.c:179-217 | packet 0 without a name ends the session with the size known so far; with one it counts the size it announces, or that one if it announces none, against the region plus one byte |
| `YmodemAnswers.HeaderFields` | Bootloader/ymodem.c:182-195 | where the fields of a header stand: the name from the fourth byte up to a zero, at most 256 bytes, and one further the text of the size up to a space, at most 16 |
| `YmodemSessions.FirstFileInOrder` | Bootloader/ymodem.c:152-266 | up to the first EOT, whatever arrives and however much: no write before header and erase; writes carry numbers 1, 2, 3, ... mod 256; flash is the device with the region erased and the accepted payloads programmed end to end from its start, wherever they end |
| `YmodemSessions.FirstFileCells` | Bootloader/ymodem.c:207-240 | the same cell by cell: accepted data and blank cells inside the region; outside it only cells that the data runs over lose bits |
| `YmodemSessions.OverrunsRegion` | Bootloader/ymodem.c:221-240 | one block of 1024 bytes into a region of 128 is ACKed and clears cells behind the region |
| `YmodemSessions.WritesAreContiguous` | Bootloader/ymodem.c:145-273 | over any number of files each write begins where the last one ended, so that the address is never set back |
| `YmodemSessions.StoresAreTheDataTurns` | Bootloader/ymodem.c:173-240 | the writes are the payloads of the in-sequence data packets, which all have a good complement (`YmodemAnswers.PacketsHaveComplements`): all of them, each once, in order of arrival |
| `YmodemSessions.ErrorBudget` | Bootloader/ymodem.c:248-259 | once begun, the error count is the number of failures since the last good receive of any kind, and at most 20 while the session lasts |
| `YmodemSessions.SilenceEndsSession` | Bootloader/ymodem.c:248-259 | on a silent line the session returns 0 exactly at the 21st failure, and never if it has not begun |
| `YmodemSessions.RepeatedEot` | Bootloader/ymodem.c:166-170 | every repeated EOT is ACKed and leaves flash, size and address alone |
| `YmodemSender.PrepareInitialPacket` | Bootloader/ymodem.c:291-319 | the header is SOH, 0, 0xFF and a payload of name, NUL, size text and zeros, where the size text runs to the first NUL on the stack |
| `YmodemSender.PreparePacket` | Bootloader/ymodem.c:327-354 | a packet of 1024 or 128 bytes with the next bytes of the file, 0x1A behind them, number and complement, read inside the file's range |
| `YmodemSender.Transmitter.OfferHeader` | Bootloader/ymodem.c:434-465 | the header loop: any byte but ACK repeats it for free, a timeout costs one of ten errors |
| `YmodemSender.Transmitter.OfferBlock` | Bootloader/ymodem.c:483-539 | the block loop: anything but ACK costs an error; an ACK moves address, remaining size and 16-bit block number on |
| `YmodemSender.Transmitter.OfferEot` | Bootloader/ymodem.c:542-562 | the first EOT is repeated until its ACK, ten times at most |
| `YmodemSender.Transmitter.SendClosing` | Bootloader/ymodem.c:564-631 | the empty header is sent until its ACK; the EOT behind it goes out exactly once whatever the answer, because its loop tests a flag already set; bytes and result are those of the machine, whose result `YmodemOutcome.ZeroIffAcknowledged` decides |
| `YmodemSender.Transmitter.YmodemTransmit` | Bootloader/ymodem.c:412-631 | everything sent and the value returned are those of the machine `Run`, for every finite line of replies that is silent afterwards; `YmodemOutcome.ZeroIffAcknowledged` says when the value is 0 |
| `YmodemSender.SameOnRetry` | Bootloader/ymodem.c:486-533 | a retry sends the same bytes |
| `YmodemTransfers.BlocksAreTheFile` | Bootloader/ymodem.c:327-354 | for every length the mixed 1024- and 128-byte blocks are the file and 0x1A up to the next multiple of 128, and nothing more |
| `YmodemTransfers.SendsItsFrame` | Bootloader/ymodem.c:471-541 | in every state of a transfer what is sent is the frame of its number |
| `YmodemTransfers.AtMostTenTimes` | Bootloader/ymodem.c:486-562 | no block and no EOT is sent more than ten times |
| `YmodemTransfers.SuccessMeansAllAcknowledged` | Bootloader/ymodem.c:412-631 | the result is 0 or 10, and 0 only at the end of everything |
| `YmodemStreams.RunFollows` | Bootloader/ymodem.c:412-631 | what a transfer does on the first k replies of a line is what it does on any endless stream that begins so |
| `YmodemStreams.DataPhaseEnds` | Bootloader/ymodem.c:471-563 | on every endless stream of replies the blocks and their EOT are left after at most 10 replies a block and 10 for the EOT |
| `YmodemStreams.OfferGoesOnIff` | Bootloader/ymodem.c:434-465 | the header loops go on if and only if there has been no ACK and fewer than ten timeouts, sending the packet again for every byte |
| `YmodemStreams.HeaderLivelock` | Bootloader/ymodem.c:434-465 | for every k: after k NAKs the sender is where it began and has sent the header k times |
| `YmodemTransfers.EveryTransfer` | Bootloader/ymodem.c:412-631 | for every line of replies: frames in order, each repeated identically until its ACK, at most ten times; 0 only if header, every block, EOT and closing header were ACKed |
| `YmodemOutcome.ZeroIffAcknowledged` | Bootloader/ymodem.c:412-631 | for every line of replies: 0 is returned if and only if header, every block, the first EOT and the closing header were ACKed, and the EOT behind it was too or fewer than nine timeouts fell in the loop around the closing header; else 10 |
| `YmodemOutcome.AllAcknowledged` | Bootloader/ymodem.c:412-631 | every file, when all is ACKed at once: each frame goes out once, in order, and 0 is returned, whatever the byte behind the ACK of the header |
| `YmodemOutcome.GivesUpAfterTen` | Bootloader/ymodem.c:477-562 | a transfer that gives up on a block or on the first EOT has just sent it ten times in a row, none of them ACKed, whatever errors earlier blocks had cost |
| `YmodemWire.BlockSizes` | Bootloader/ymodem.c:327-354 | a file of n bytes goes out in n / 1024 blocks of 1024 bytes and the rest in blocks of 128, as few as hold it |
| `YmodemWire.BytesOfBlocks` | Bootloader/ymodem.c:327-354 | byte by byte the blocks are the file and 0x1A up to a multiple of 128 |
| `YmodemWire.FramesOnTheWire` | Bootloader/ymodem.c:412-631 | each frame in numbers: start byte by size, number modulo 256 and 255 minus it, payload, CRC-16 of payload and two zeros with the high byte first; EOT; a closing header of 128 zeros |
| `YmodemWire.BytesOfHeader` | Bootloader/ymodem.c:291-319 | the payload of the header byte by byte: name, zero, text of the size, zeros |
| `YmodemLink.TakesHeader` | Bootloader/ymodem.c:179-210 | the receiver in its first state takes the sender's header if the size is at most one more than the region: region erased, size known, ACK and C sent; otherwise it sends CA twice and returns -1, with flash as it was |
| `YmodemLink.TakesBlock` | Bootloader/ymodem.c:221-240 | the expected block is written behind the ones before it if the device has room for it, whether or not the region does, and flash shows exactly the blocks so far; otherwise the receiver sends CA twice and returns -2 |
| `YmodemLink.RefusesRepeat` | Bootloader/ymodem.c:173-176 | the block before the expected one is refused with NAK, although only the low byte of its number is looked at |
| `YmodemLink.TakesClosing` | Bootloader/ymodem.c:212-217 | the empty header ends the session with the recorded size |
| `YmodemLinkSafety.MoveKeeps` | Bootloader/ymodem.c:145-273 | every arrival, timeout and loss keeps the invariant of sender, receiver, channels and flash |
| `YmodemLinkSafety.SafeUnderLoss` | Bootloader/ymodem.c:145-631 | for every file, region and device, in every reachable state up to the first EOT: sender index <= receiver count <= sender index + 1, and flash holds exactly the blocks before the count, each written once; an EOT gets through only for a file that is admitted, and then the padded file is in flash; the receiver returns 0, the size, -1 for a size over the region by more than one byte, or -2 for a file that runs over the device |
| `YmodemLinkSafety.LossFreeDelivers` | Bootloader/ymodem.c:145-631 | without losses and timeouts, for every file that is admitted, inside the region or not: the receiver reports the size and nothing else, with file and padding in flash, and every such run can go on until it does |
| `YmodemLinkSafety.LostAckNeverRecovers` | Bootloader/ymodem.c:173-176 | once an ACK is lost before the first EOT, no continuation writes another block, reports the size or lets the sender succeed |
| `YmodemLinkSafety.DeliveryNeedsEveryAck` | Bootloader/ymodem.c:173-176 | the same for every run from the start that loses an ACK |
| `YmodemRecovery.RecoversIff` | Bootloader/ymodem.c:145-631 | in every reachable state before the first EOT with both ends at work: some continuation completes the transfer if and only if the file is admitted, no ACK is lost, and the awaited frame is in flight, its ACK is under way, a retry is left, or the header is still on offer |
| `YmodemRecovery.LostPacketRecovers` | Bootloader/ymodem.c:480-535 | losing any packet in such a state, with a retry left, leaves the transfer completable |
| `YmodemRecovery.FirstAckLost` | Bootloader/ymodem.c:173-176 | the run that loses the ACK of the header: it exists, and no continuation completes it |
| `YmodemRecovery.HeaderGoesRound` | Bootloader/ymodem.c:434-465 | for every k > 0: behind that loss the two ends go round k times, header for NAK and NAK for header, and stand where they stood, with no error counted on either side |
| `YmodemClosing.ReportsIff` | Bootloader/ymodem.c:542-631 | in every reachable state after an EOT has arrived, until the receiver returns: some continuation makes it return the size if and only if the file is empty, the closing header is in flight, the sender can still have the ACK of its EOT, or it offers the closing header and can be made to repeat it, by a timeout left, a byte other than ACK under way, an EOT in flight or a timeout left to the receiver |
| `YmodemRegion.StaysInRegionIff` | Bootloader/ymodem.c:221-240 | for every incoming byte stream: the writes of a session stay inside the region if and only if all that is accepted fits it |
| `YmodemRegion.CanOverrunIff` | Bootloader/ymodem.c:221-240 | over all byte streams: some session writes behind the region if and only if the device has room for the first multiple of 128 bytes that exceeds it |
| `YmodemRegion.RegionKeptIff` | Bootloader/ymodem.c:199-240 | in every run of both ends whose EOT gets through: the writes stay inside the region if and only if the size rounded up to 128 is at most the region; each cell behind the region that the file runs over holds the AND of what it held and the file, each other cell what it held |
| `YmodemRegion.DeliverableIff` | Bootloader/ymodem.c:197-240 | some run of both ends delivers the file if and only if its size is at most one more than the region and the device has room for it padded |
| `YmodemRegion.OneByteTooLong` | Bootloader/ymodem.c:199-199 | every file one byte longer than the region, in a device that goes on behind it, is delivered by a run without loss, and its last byte programmed into the cell behind the region |
| `YmodemRegion.LongJobTooLong` | Bootloader/ymodem.c:199-199 | such a file: 129 zeros for a region of 128 bytes, which clear the byte behind it |
| `SystemMonitor.Supervisor.Register` | MICO/system/mico_system_monitor.c:85-102 | the monitor gets the first free slot with its deadline, no other slot changes, occupied slots stay a prefix; a full table refuses and leaves the monitor alone |
| `SystemMonitor.Supervisor.CheckPass` | MICO/system/mico_system_monitor.c:59-83 | a pass reloads the watchdog exactly if no slot is late on the 32-bit clock, and hangs otherwise |
| `SystemMonitor.UpdateMonitor` | MICO/system/mico_system_monitor.c:104-115 | an update is accepted exactly if the monitor is not late |
| `SystemMonitor.Supervisor.DaemonStart` | MICO/system/mico_system_monitor.c:128-142 | the supervisor starts with its own monitor in slot 0 and a limit of 5000 ms |
| `SystemMonitor.NoReloadAfterMiss` | MICO/system/mico_system_monitor.c:47-115 | in every run from the start, across rollovers: no reload lies past any deadline, and the watchdog has expired less than 3000 ms after a miss |
| `SystemMonitor.MissIsSticky` | MICO/system/mico_system_monitor.c:104-112 | after a miss no update of that monitor is accepted and no pass reloads |
| `SystemMonitor.HangIsForGood` | MICO/system/mico_system_monitor.c:70-75 | once a pass has found a miss nothing reloads the watchdog again, not even when the clock has come round |
| `SystemMonitor.SupervisedExactly` | MICO/system/mico_system_monitor.c:70-74 | over the runs the thread can make, with 2000 ms or more between passes and the watchdog not expired: misses are seen for a delay if and only if it is at most 2^32 - 3000 ms |
| `SystemMonitor.NoFalseAlarm` | MICO/system/mico_system_monitor.c:66-80 | if every client is within its delay on the true clock, every pass reloads and every update is accepted, across rollovers |
| `SystemMonitor.JitterTolerated` | MICO/system/mico_system_monitor.c:117-139 | over the same kind of runs: the 2500 ms timer against the 5000 ms limit tolerates a jitter if and only if it is at most 2500 ms |
| `RfMigration.Loader.InitPlatformBootloader` | Board/SC3165/platform.c:519-602 | skips exactly if the tag is not 0; commits only if the CRC-8 of what it has copied equals the stored byte, and halts only if not; the tag is erased only then; nothing else but the destination changes; with steady power the result is `CleanBoot`, and a faithful driver cut short anywhere leaves a `CutBoot` |
| `RfMigration.DecidesOnCells` | Board/SC3165/platform.c:519-602 | an undisturbed boot on the cells it looks at: skipped if and only if the byte at 0x8000 is not 0, else committed if and only if the CRC-8 of the source at 0x40000 is the byte at 0x7FFFF, else halted |
| `RfMigration.BootsCellByCell` | Board/SC3165/platform.c:519-602 | every cell of both chips behind it: the source in the destination unless skipped, the tag's sector of 16 KB blank if committed, all else as it was |
| `RfMigration.Loader.Copy` | Board/SC3165/platform.c:549-563 | the copy loop leaves the source in the erased destination, chunk by chunk |
| `RfMigration.Loader.Verify` | Board/SC3165/platform.c:571-585 | the chunked CRC-8 is the fold over the whole destination |
| `RfMigration.CutBootKeepsOutcome` | Board/SC3165/platform.c:519-602 | a boot cut short, even inside the erase of the destination, does not change what an undisturbed boot would leave |
| `RfMigration.CutBootsThenClean` | Board/SC3165/platform.c:519-602 | any number of boots cut short and one undisturbed boot leave the flash of one undisturbed boot |
| `RfMigration.MismatchNeverCommits` | Board/SC3165/platform.c:587-592 | a source that does not match its CRC keeps its tag through every series of boots and halts each undisturbed one |
| `RfMigration.CleanBootIsFinal` | Board/SC3165/platform.c:519-602 | a second undisturbed boot changes nothing, and after a tagged boot destination equals source |
| `BootEntrance.Loader.EnableProtection` | Bootloader/BootloaderEntrance.c:84-94 | what becomes unwritable is exactly the write-disabled partitions, but for those whose own call fails, whatever was writable before |
| `BootEntrance.GrantedIff` | Bootloader/menu.c:192-398 | the cells that a session at the command line unlocks: those of some command with no BOOT and no REBOOT before it |
| `BootEntrance.Loader.MainMenu` | Bootloader/menu.c:192-398 | over any commands: the application is entered if and only if there is a BOOT not behind a REBOOT, and then behind one more run of the protection; until then exactly the cells that commands unlock become writable |
| `BootEntrance.Loader.Start` | Bootloader/BootloaderEntrance.c:118-158 | every path through main, both ways: the application without a break-in or request, the test firmware if it is asked for and there, and else the command line, where only BOOT not behind REBOOT enters the application; what is writable at the end, cell by cell: whatever is entered, the write-disabled partitions are protected, except where the last call failed |

## Left out

- Updates of type 'B': `Update` covers them, the argument over reboots does not, because the bootloader would be erasing itself.
- Erase granularity: a partition is erased as a whole and atomically in the installer, without sector rounding; in the migration the destination may be left partly erased, the tag's sector not.
- 32-bit address arithmetic of the drivers: partitions are assumed to lie inside their device and to be shorter than 2^31 bytes.
- Parameter partitions over 16 KB, which would overrun the RAM copy (Bootloader/Update_for_OTA.c:53).
- The unlock of a partition of length 0 at address 0, which the driver refuses; no update names such a partition as its destination.
- The effect of write protection on erase and write: protection is modelled only where the application is started.
- The cell behind `FileName` and the 17th cell of the size text, which the receiver writes for a text that fills its buffer; both buffers have that cell here.
- Faults of the flash under the receiver: its writes fail only outside the device, and a failed erase is one outside the device.
- End-to-end delivery of more than one file in a session: the write address is not set back between files (`YmodemSessions.WritesAreContiguous`).
- The EOT after the closing header: this receiver has returned by then, so a composed run ends at that ACK.
- Sizes the header cannot carry: 2^31 bytes and more, and in `SizeReadIff` the size 0, for which a leading 0 opens the hexadecimal form.
- States before the first EOT in which the sender has given up with frames still under way: `RecoversIff` speaks of states with both ends at work.
- Packets that are damaged or cut on the line, in the composed runs; the receiver alone is covered for every byte stream.
- A file range outside the flash device under the sender: the failing read would leave the buffer of the last packet.
- The key that starts an upload (Bootloader/menu.c:171) and everything printed.
- `SystemMonitor.Supervisor.Register`: the slots keep showing the supervisor's state only for a monitor not registered before; a monitor registered twice gets a second slot and a fresh deadline, as in the source.
- Preemption inside one check pass: the time is read once, so an update in the middle of the pass is outside the model.
- The menu's parsing, the console, the EasyLink handlers, the power daemon and `mico_system_init`.
- The same migration routine in Board/MiCOKit-3165/platform.c.
