# Verification models for the e1000e driver and the LCM panel protocol

This project models, in Dafny, the parts of the repository whose correctness is not visible from any one function:
the crash-safe NVM commit of the ICH8/9/10 Ethernet controllers, the bit-banged SPI EEPROM writer, the
software/firmware semaphore, the manageability host interface, the receive-address filter and the SerDes link
machine of the e1000e driver, and the serial framing protocol of the LCM front panel.

Code that works by changing registers, arrays and fields is modelled as classes with methods and loops of the same
shape. Each method is proved against a specification function or predicate, and the properties of a component are
lemmas about those specifications. Hardware is part of the model: what a device does by itself is fixed by constant
functions of time (how long a cycle takes, whether it fails, what a register reads), so a contract that holds for
every object holds for every behaviour of the device.

`dafny verify dfyconfig.toml` checks everything.

| file | models |
|---|---|
| `bytes.dfy`, `bits.dfy` | bytes, words, wrapping sums, bit strings |
| `flash.dfy` | the ICH flash register block, its device, and the cycle, read, program, retry and erase code |
| `ichimage.dfy` | two-bank images, signatures and bank detection, as values |
| `ichnvm.dfy` | the NVM operations over the shadow RAM: read, write, checksum, commit, validation |
| `ichruns.dfy` | runs of operations, failures and power losses |
| `icherase.dfy` | why a commit needs banks of one erase sector |
| `ethtool.dfy` | byte access over the word NVM |
| `spi.dfy` | the EEPROM part behind EECD and the page writer |
| `swfw.dfy` | the semaphore protocol as interleaved register accesses of agents and firmware |
| `swfwothers.dfy` | one agent among the others: what they may do between two of its accesses, and what it means that they leave |
| `esb2.dfy` | the driver code as one agent of a run of that protocol, each access its next step, and the accessors that use it |
| `crc.dfy`, `panelwire.dfy`, `panelprotocol.dfy`, `panel.dfy` | CRC-16, framing and parser, replies and their exchange, one end with its fixed buffers |
| `manage.dfy` | the manageability host interface |
| `multicast.dfy` | receive-address pairs, multicast hash table, locally administered address |
| `serdes.dfy` | the SerDes link state machine |

## Assumptions

Flash device: programming clears bits only; a program of one byte and the erase of one sector take effect as a whole
or not at all, whether or not the cycle reports an error; status bits are write-one-to-clear. A power cut leaves the
contents before or after the operation that was running. What the tables below call "without errors" is weaker than
it sounds: no flash cycle outlasts the shortest poll, never ten cycles in a row report an error, and the software flag is
granted (`Calm`). The bank is exactly one erase sector (`OneSector`) wherever
a commit is involved: `FlashController.EraseExact` shows that only then the erase does what it is for, and
`IchErase.EraseSafeExactly` that only then it is safe to erase bank 0 while bank 1 holds the valid image. The
bank has room for the 2048 words of the shadow (`Fits`).

SPI part: it shifts on the rising clock, acts on what it received when deselected, wraps inside a page, and ignores
all but status reads while busy.

Semaphore: reading SWSM sets SMBI and returns its old value; a write of SWESMBI latches only while the firmware does not
hold its side; SW_FW_SYNC is read and written whole. The firmware follows the same rule on its side. Before each access
of the driver the others, which follow the protocol too, do any number of steps of theirs. The spinning release and the
accessors that contain it need that the others do not stay in the section for ever (`SwFwOthers.Opens`): again and again
there are eight accesses of the driver in a row at each of which they have left. `SwFwOthers.OpenNeighbours` shows that
others who finish what they are in at half of the times, and do anything at all at the other half, meet this.

Panel line: bytes arrive in order. The port does not fail for ever, which the sender's loops need to end.

## Where the code and what is said about it differ

- The bank erase adds `j * sector_size` to an address that is already running (`e1000_ich8lan.c:1811`): sectors 0, 1, 3,
  6, ... are erased, and a retry in a later sector moves the address again. `FlashController.EraseExact` gives the exact
  condition under which the result is right. With larger banks the erase of bank 0 can reach the signature of bank 1 and
  leave no valid image at all: `IchErase.ImageLost`.
- A commit forces word 0x13 to signature bits 10b after the checksum was computed. A merged word with other signature bits is
  changed, and then the committed image fails validation: `IchNvm.CommittedSum`, `IchNvm.Nvm.UpdateForReader`.
- `e1000_set_eeprom` commits to flash only when the edit starts at or before word 0x3F (`ethtool.c:610`). Past it the
  edit stays in the shadow and is lost with it, although the call reports success: `Ethtool.SurvivesExactly` gives the
  exact condition and `Ethtool.LostEdit` an edit at word 0x40 that a power cycle loses.
- The SPI writer takes the A8 bit from the first word of the whole write (`e1000_nvm.c:424`). `Spi.FaithfulExactly` gives the
  exact condition.
- The GG82563 accessors check the page selection by reading it back into the variable that holds the expected value, and
  ignore the result of that read (`e1000_80003es2lan.c:513`). A failed read-back therefore passes the check:
  `Esb2.WritesNamedExactly` and `Esb2.ReadsNamedExactly` give the exact conditions under which a reported success is on
  the register named, and `Esb2.WrongRegisterWritten` a write that is reported as done and lands on another page.
- The host-interface writer subtracts from a 16-bit length before checking it (`e1000_manage.c:284`):
  `HostInterface.StaysInRam` gives the exact condition.
- The comment on the multicast hash gives 0x163 for filter type 2 (`e1000_mac.c:418`); the code computes 0x58D:
  `ReceiveFilter.DocumentedHashes`.
- A panel data frame with a bad CRC is answered with NACK and then handled all the same
  (`panel-net.c:316-328`): `PanelProtocol.DamageAnswered`.
- The SerDes machine stays in the auto-negotiation state with the link forced when flow control cannot be configured
  (`e1000_82571.c:1429-1433`): `SerdesLink.KeptExactly` shows that this is the only way state and registers part.

## Model

| member | source | states |
|---|---|---|
| `FlashController.Flash.ReadStatus` | e1000e-0.5.18.3/src/e1000_ich8lan.c:1110-1178 | a status read may complete the running cycle, and then settles the cells to what that cycle leaves; an idle device is unchanged |
| `FlashController.Flash.CycleInit` | e1000e-0.5.18.3/src/e1000_ich8lan.c:1110-1178 | success means the device is idle with the done and error bits cleared by write-one-to-clear, so that a done bit seen later belongs to the next request; the contents never change |
| `FlashController.Flash.RunCycle` | e1000e-0.5.18.3/src/e1000_ich8lan.c:1187-1211 | success is the completion of this very request (no stale done bit), reported without error; a program or erase adds exactly one entry to the history of contents |
| `FlashController.Flash.Attempt` | e1000e-0.5.18.3/src/e1000_ich8lan.c:1302-1337 | one pass of the retry loops: the contents are as before or have the full effect of the request at the requested address, success means the latter, and there is never both success and a retry; on an idle device in time every failed cycle is asked for again |
| `FlashController.Flash.ReadData` | e1000e-0.5.18.3/src/e1000_ich8lan.c:1274-1342 | success returns the byte or word now stored at the requested address; at most 11 cycles; nothing is written; on an idle device in time it succeeds exactly if one of eleven cycles reports no error |
| `FlashController.Flash.WriteByte` | e1000e-0.5.18.3/src/e1000_ich8lan.c:1602-1669 | every intermediate content is the old one or the old one with this byte programmed; success means it is programmed; at most 11 cycles |
| `FlashController.Flash.RetryWriteByte` | e1000e-0.5.18.3/src/e1000_ich8lan.c:1696-1720 | the same for the outer retry loop of the driver, over any sequence of failures; on an idle device in time it succeeds exactly if one of 101 * 11 cycles reports no error |
| `FlashController.Flash.EraseBank` | e1000e-0.5.18.3/src/e1000_ich8lan.c:1730-1837 | the contents follow, erase by erase, the run of the loop with its accumulated address, for every sector size; success means the run is finished; a bank of one sector is erased exactly if one of ten cycles reports no error, on an idle device in time |
| `FlashController.SectorSizes` | e1000e-0.5.18.3/src/e1000_ich8lan.c:1745-1783 | the four sector sizes are 256, 4096, 8192 and 65536 bytes, in the order of their codes |
| `FlashController.EraseExact` | e1000e-0.5.18.3/src/e1000_ich8lan.c:1785-1834 | whatever the device reports, a run that reports success erased every byte of the bank and nothing else, if and only if the bank is exactly one sector |
| `FlashController.EraseGoesWrong` | e1000e-0.5.18.3/src/e1000_ich8lan.c:1807-1812 | for every other bank size, outcomes after which the driver reports an erase it did not do |
| `FlashController.RetryInSecondSector` | e1000e-0.5.18.3/src/e1000_ich8lan.c:1807-1812 | one retry in the second of two sectors erases past the bank, and success is reported |
| `FlashController.GoodRunMisses` | e1000e-0.5.18.3/src/e1000_ich8lan.c:1807-1812 | with three or more sectors, or none, even a run without a single retry leaves a named byte of the bank unerased |
| `FlashController.OneSectorTrail` | e1000e-0.5.18.3/src/e1000_ich8lan.c:1785-1834 | a one-sector erase under any number of retries leaves each intermediate content as before or fully erased |
| `FlashController.ProgramTwice` | e1000e-0.5.18.3/src/e1000_ich8lan.c:1696-1720 | repeating a program is harmless, since programming only clears bits |
| `IchImage.SelectedIsSigned` | e1000e-0.5.18.3/src/e1000_ich8lan.c:1003-1036 | the image that detection selects carries signature bits 10b |
| `IchImage.InactiveSelects` | e1000e-0.5.18.3/src/e1000_ich8lan.c:1003-1036 | work confined to the other bank, while that bank shows no valid signature, leaves the selected image unchanged |
| `IchImage.FilledImage` | e1000e-0.5.18.3/src/e1000_ich8lan.c:1442-1487 | when the copy loop is done the new bank holds the merged image with its signature held at 11b |
| `IchImage.ValidatedSelects` | e1000e-0.5.18.3/src/e1000_ich8lan.c:1497-1517 | after the validate write the new bank is signed and holds the complete new image; the selection has moved to it exactly when it is bank 0 |
| `IchImage.InvalidatedSelects` | e1000e-0.5.18.3/src/e1000_ich8lan.c:1519-1530 | after the invalidate write the new image is selected, whichever bank it is in |
| `IchImage.ForcedSig` | e1000e-0.5.18.3/src/e1000_ich8lan.c:1466-1467 | holding the signature bits and then clearing bit 14 gives 10b, and is the identity exactly on words that had 10b |
| `IchNvm.Nvm.Acquire` | e1000e-0.5.18.3/src/e1000_ich8lan.c:415-442 | success is holding the software flag, which happens exactly if it was held or one of the next hundred attempts to set it sticks |
| `IchNvm.Nvm.DetectBank` | e1000e-0.5.18.3/src/e1000_ich8lan.c:982-1040 | success returns the bank that the signatures select; failure on an error-free device means there is none; nothing is written |
| `IchNvm.Nvm.ReadNvm` | e1000e-0.5.18.3/src/e1000_ich8lan.c:1051-1101 | success returns the shadow over the selected image, word by word; the range check is exact; the flag is released on every path |
| `IchNvm.Nvm.WriteNvm` | e1000e-0.5.18.3/src/e1000_ich8lan.c:1353-1381 | success puts the words into the shadow marked modified and nothing else; failure changes nothing; the flash is never touched |
| `IchNvm.Nvm.ValidateGeneric` | e1000e-0.5.18.3/src/e1000_nvm.c:521-544 | success means words 0 to 0x3F, added up as plain numbers, are 0xBABA mod 2^16; without errors it succeeds exactly then |
| `IchNvm.Nvm.UpdateGeneric` | e1000e-0.5.18.3/src/e1000_nvm.c:554-575 | success leaves a shadow whose checksum word completes the sum, all other words alone |
| `IchNvm.Nvm.FillOtherBank` | e1000e-0.5.18.3/src/e1000_ich8lan.c:1414-1487 | erase and copy: every intermediate content selects the old image; success means the other bank holds the merged image, held unsigned |
| `IchNvm.Nvm.CopyWord` | e1000e-0.5.18.3/src/e1000_ich8lan.c:1442-1487 | one round of the copy loop programs word i of the other bank, low byte first, with the merged word, the signature held at 11b; every intermediate content is the bank before, with the low byte, or with the word |
| `IchNvm.Nvm.WriteBankByte` | e1000e-0.5.18.3/src/e1000_ich8lan.c:1470-1530 | a byte of a bank is programmed, or the contents are as before; on an idle device in time it succeeds exactly if one of 101 * 11 cycles reports no error |
| `IchNvm.Nvm.SignNewBank` | e1000e-0.5.18.3/src/e1000_ich8lan.c:1497-1517 | the validate write: intermediate contents select the old image or the one validation is to select, which is the new one if it went to bank 0 |
| `IchNvm.Nvm.UnsignOldBank` | e1000e-0.5.18.3/src/e1000_ich8lan.c:1519-1530 | the invalidate write: intermediate contents select the image selected before or the new one, success the new one |
| `IchNvm.Nvm.CommitBank` | e1000e-0.5.18.3/src/e1000_ich8lan.c:1414-1530 | the whole flash part of a commit: every intermediate content, on every path, selects exactly the old image or the complete new one |
| `IchNvm.Nvm.UpdateChecksum` | e1000e-0.5.18.3/src/e1000_ich8lan.c:1394-1552 | for every outcome of every flash operation the history of contents selects the old image or the complete new one; success empties the shadow, failure keeps it; the flag is released |
| `IchNvm.Nvm.UpdateForReader` | e1000e-0.5.18.3/src/e1000_ich8lan.c:1394-1552 | what a reader gets is the same before and after, success or failure at any point, but for word 0x3F and the signature bits that the commit forces: word 0x13 keeps its value if and only if the commit failed or the merged word had 10b; a success leaves the new image in the flash and an empty shadow, and that image passes validation if and only if the merged word had 10b; without errors it succeeds |
| `IchNvm.Nvm.ValidateChecksum` | e1000e-0.5.18.3/src/e1000_ich8lan.c:1562-1591 | writes nothing when there is no valid bank or bit 6 of word 0x19 is set, and else nothing but that word and the commit behind it, whatever fails; word 0x19 keeps every bit but bit 6 and every word but 0x19, 0x3F and 0x13 reads as before on every path; success means the words sum to 0xBABA and, if a repair was needed, that it was committed; when no flash error occurs the outcome is exact: an image with the bit clear is repaired and validates if and only if its signature bits are 10b, and the bit is set afterwards, so a second call writes nothing |
| `IchNvm.RepairOutcome` | e1000e-0.5.18.3/src/e1000_ich8lan.c:1562-1591 | throughout a repair, whatever fails, the flash selects the old image or the repaired one; after a success the repaired one, which has bit 6 set and sums to 0xBABA if and only if the signature bits were 10b |
| `IchNvm.ReadsAlike` | e1000e-0.5.18.3/src/e1000_ich8lan.c:1064-1101 | while the shadow is kept, old and new image read the same through it |
| `IchNvm.ReadsAlikeWhenSigned` | e1000e-0.5.18.3/src/e1000_ich8lan.c:1466-1467 | once the shadow is cleared the new image equals what was read before exactly when the merged word 0x13 had 10b |
| `IchNvm.CommitForReader` | e1000e-0.5.18.3/src/e1000_ich8lan.c:1394-1552 | both endings of a commit as a reader sees them, with the exact condition for the signature word and for the sum |
| `IchNvm.ChecksumMakesSum` | e1000e-0.5.18.3/src/e1000_nvm.c:559-570 | the checksum word that the update computes makes the words 0 to 0x3F, added up as plain numbers, 0xBABA mod 2^16 for every image and shadow |
| `IchNvm.CommittedSum` | e1000e-0.5.18.3/src/e1000_nvm.c:521-575 | the committed image sums to 0xBABA if and only if the merged word 0x13 had signature bits 10b |
| `IchNvm.RepairedImage` | e1000e-0.5.18.3/src/e1000_ich8lan.c:1577-1585 | the image that validation leaves after a repair has bit 6 of word 0x19 set and all its other bits as they were read before, every word but 0x19, 0x3F and the signature bits of 0x13 as before, and sums to 0xBABA if and only if the signature bits were 10b |
| `IchNvm.TrailReads` | e1000e-0.5.18.3/src/e1000_ich8lan.c:1562-1591 | however a repair ends, a reader sees the same words but for bit 6 of word 0x19, the checksum and the signature bits |
| `IchRuns.RunIsSafe` | e1000e-0.5.18.3/src/e1000_ich8lan.c:982-1552 | crash atomicity: in every run of writes, reads, commits, failed commits, validations with their repairs and power losses, whatever the cells hold if power goes at any moment, detection succeeds and selects the image the last commit began with or its complete new image |
| `IchRuns.StepKeepsSafe` | e1000e-0.5.18.3/src/e1000_ich8lan.c:982-1552 | the invariant behind it is kept by every step |
| `IchRuns.SuccessLasts` | e1000e-0.5.18.3/src/e1000_ich8lan.c:1394-1552 | durability: after a commit has succeeded, no write, read or power loss changes the selected image |
| `IchRuns.CutIsFailedCommit` | e1000e-0.5.18.3/src/e1000_ich8lan.c:1394-1552 | cutting the power in the middle of a commit is a failed commit followed by a power loss |
| `IchRuns.Perform` | e1000e-0.5.18.3/src/e1000_ich8lan.c:1051-1552 | every operation of the driver object, validation and its repair included, and a power cycle, is at most two steps of such a run; a success did what the operation is for, and without errors it succeeds exactly when its arguments are in range, a valid bank exists and, for a validation, the words sum up or can be repaired |
| `IchRuns.Session` | e1000e-0.5.18.3/src/e1000_ich8lan.c:1051-1552 | any list of operations, validations included, takes the driver object through such a run, so that every moment of it is crash safe and detection succeeds at the end; each operation that reported success did what it is for |
| `IchErase.EraseSafeExactly` | e1000e-0.5.18.3/src/e1000_ich8lan.c:1785-1834 | while bank 0 is erased for a commit the image in bank 1 stays selected, at every point and whatever the device does, if and only if the bank is one erase sector |
| `IchErase.ImageLost` | e1000e-0.5.18.3/src/e1000_ich8lan.c:1807-1812 | with two or more sectors there are outcomes after which neither bank is valid |
| `IchErase.RunWithRetry` | e1000e-0.5.18.3/src/e1000_ich8lan.c:1807-1812 | a single retry at sector d moves every later erase up by d sectors |
| `Ethtool.InRangeMeans` | e1000e-0.5.18.3/src/kcompat_ethtool.c:431-438 | the two checks with their 32-bit wrap mean exactly a positive length that ends inside the NVM |
| `Ethtool.GetEeprom` | e1000e-0.5.18.3/src/ethtool.c:495-545 | success returns the bytes [offset, offset+len) of what the NVM reads as, for both parities of both ends |
| `Ethtool.EditWords` | e1000e-0.5.18.3/src/ethtool.c:576-598 | the words prepared for writing hold, byte for byte, the requested bytes and the old edge bytes |
| `Ethtool.SetEeprom` | e1000e-0.5.18.3/src/ethtool.c:547-619 | every byte outside words 0x13 and 0x3F reads as edited once the edit reached the shadow, whether or not the commit succeeds; a signed word 0x13 that is avoided is kept; a success that starts at or before word 0x3F leaves the edited image in the flash and the shadow empty, a later one leaves the flash as it was and the edit in the shadow; without errors it succeeds |
| `Ethtool.SetThenGet` | e1000e-0.5.18.3/src/ethtool.c:495-619 | a successful set followed by a successful get returns the bytes that were set, outside words 0x13 and 0x3F; without errors both succeed |
| `Ethtool.SurvivesExactly` | e1000e-0.5.18.3/src/ethtool.c:606-614 | a set that reports success has its bytes in the flash image, for every image, shadow and data and outside words 0x13 and 0x3F, if and only if it starts at or before word 0x3F |
| `Ethtool.SetThenPowerCycle` | e1000e-0.5.18.3/src/ethtool.c:495-619 | after a successful set, a power cycle and a successful get the bytes are back if the set started at or before word 0x3F, and else the bytes that were in the flash before |
| `Ethtool.LostEdit` | e1000e-0.5.18.3/src/ethtool.c:606-614 | on a part that never fails an edit of the first byte of word 0x40 reports success and is gone after a power cycle |
| `Spi.Port.ShiftOut` | e1000e-0.5.18.3/src/e1000_nvm.c:87-116 | clocks the low bits of the value, most significant first, into the selected part |
| `Spi.Port.ShiftIn` | e1000e-0.5.18.3/src/e1000_nvm.c:129-153 | returns the bits that the part showed, one for each clock, most significant first |
| `Spi.StatusRead` | e1000e-0.5.18.3/src/e1000_nvm.c:298-306 | the eight bits read after the status opcode are the status register: bit 1 the write latch, bit 0 busy |
| `Spi.NothingElse` | e1000e-0.5.18.3/src/e1000_nvm.c:384-452 | the part's memory changes only by a WRITE command with its latch set, and only WREN sets the latch |
| `Spi.SelectedParts` | e1000e-0.5.18.3/src/e1000_80003es2lan.c:148-161 | both parts that the driver may select, 16 address bits with pages of 32 bytes and 8 with pages of 8, are among those the results are about |
| `Spi.Port.Standby` | e1000e-0.5.18.3/src/e1000_nvm.c:226-242 | deselects the part, which acts on what it received, and selects it again with nothing received |
| `Spi.Port.Ready` | e1000e-0.5.18.3/src/e1000_nvm.c:285-327 | success means the part is no longer busy; the memory is unchanged |
| `Spi.Port.Acquire` | e1000e-0.5.18.3/src/e1000_nvm.c:194-218 | succeeds exactly when a grant shows within the first 1000 looks; one that shows only at the last look counts as none; otherwise the request is withdrawn |
| `Spi.Port.FillPage` | e1000e-0.5.18.3/src/e1000_nvm.c:432-443 | the words of one burst stay inside one page, and the burst ends at the page end or with the data |
| `Spi.Port.SendBurst` | e1000e-0.5.18.3/src/e1000_nvm.c:401-444 | one burst leaves exactly its words programmed, and the next one starts on a page boundary |
| `Spi.Port.WriteNvm` | e1000e-0.5.18.3/src/e1000_nvm.c:384-452 | on every path the memory has exactly the first words written, whole pages of them if the write stopped early; on success all of them, with release committing the last partial page; an addressable write leaves each word little-endian in its place and every other byte unchanged |
| `Spi.WriteDecodes` | e1000e-0.5.18.3/src/e1000_nvm.c:420-429 | the part decodes the driver's command, A8 bit and 8- or 16-bit address |
| `Spi.BurstArrives` | e1000e-0.5.18.3/src/e1000_nvm.c:432-436 | the byte-swapped words arrive as low byte, high byte |
| `Spi.BurstLands` | e1000e-0.5.18.3/src/e1000_nvm.c:401-444 | a burst that stays inside its page never wraps, for page sizes 8 and 32 and both address widths |
| `Spi.AddressableWrites` | e1000e-0.5.18.3/src/e1000_nvm.c:384-452 | under the caller's range condition the result is the intended one on every byte of the memory |
| `Spi.FaithfulExactly` | e1000e-0.5.18.3/src/e1000_nvm.c:420-429 | the writer does what was asked, for every memory and every data, if and only if the write stays on one side of word 128 and below word 256 (8 address bits), or below word 32768 (16) |
| `SwFw.InvStep` | e1000e-0.5.18.3/src/e1000_80003es2lan.c:404-466 | every register access of any agent or of the firmware keeps the invariant |
| `SwFw.MutualExclusion` | e1000e-0.5.18.3/src/e1000_80003es2lan.c:404-466 | in every interleaving of any number of agents and the firmware no resource has two owners, and SW_FW_SYNC says exactly who owns what |
| `SwFw.NobodyElsesBits` | e1000e-0.5.18.3/src/e1000_80003es2lan.c:419-440 | no step of one party changes what another owns or loses its bits |
| `SwFw.FailureLeavesNothing` | e1000e-0.5.18.3/src/e1000_mac.c:1402-1447 | an agent whose acquire failed, at any timeout, owns what it owned before and holds neither hardware bit; with nobody inside both bits are clear |
| `SwFw.AcquireReturns` | e1000e-0.5.18.3/src/e1000_80003es2lan.c:404-444 | whatever the registers read, an acquire ends within 50*(4*timeout+8) accesses |
| `SwFw.AcquireOutcome` | e1000e-0.5.18.3/src/e1000_80003es2lan.c:404-444 | how an acquire ends, whatever the registers read: it succeeds exactly when a look at SW_FW_SYNC shows the mask free, which is then the last; it fails exactly when every look showed it taken, and then there were fifty, or SMBI was set at `timeout` polls in a row, or SWESMBI did not latch `timeout` times in a row |
| `SwFw.TakesWhenFree` | e1000e-0.5.18.3/src/e1000_80003es2lan.c:404-444 | with the hardware semaphore free and the resources unowned, eight accesses of an agent that is alone acquire exactly the mask and leave the semaphore free |
| `SwFw.DropsWhenFree` | e1000e-0.5.18.3/src/e1000_80003es2lan.c:454-466 | eight accesses give back exactly the mask and leave the semaphore free |
| `SwFw.BusyIsRefused` | e1000e-0.5.18.3/src/e1000_80003es2lan.c:414-431 | resources that somebody owns, software or firmware, are refused: the registers are as before, the semaphore is free, and the agent is at its next round or, after the fiftieth, failed |
| `SwFw.RetriesUntilFree` | e1000e-0.5.18.3/src/e1000_80003es2lan.c:412-431 | an acquire that finds the mask taken in any number of rounds below fifty and free in the next takes it in that round |
| `SwFwOthers.OpenNeighbours` | e1000e-0.5.18.3/src/e1000_80003es2lan.c:404-466 | others who finish what they are in at half of the times, and do anything the protocol allows at the rest, meet the condition under which the driver's spinning loops end |
| `SwFwOthers.FoundByAgent` | e1000e-0.5.18.3/src/e1000_mac.c:1402-1447 | what an agent finds at an access: a poll finds SMBI clear when the others have left, and while it is inside with SWESMBI latched no register changes behind its back |
| `Esb2.Driver.HeldAlone` | e1000e-0.5.18.3/src/e1000_80003es2lan.c:404-466 | a driver object is an agent of a run of the protocol: what it holds no other agent and not the firmware holds, and SW_FW_SYNC shows it |
| `Esb2.AmongNeighbours` | e1000e-0.5.18.3/src/e1000_80003es2lan.c:404-466 | a driver object that meets what the accessors require exists among any number of agents |
| `Esb2.Driver.GetHwSemaphore` | e1000e-0.5.18.3/src/e1000_mac.c:1402-1447 | each access is the next step of a protocol agent among others that go on in between; it ends inside the section, or as a failed acquire; an attempt that starts no later than the fourth of eight accesses at which the others have left succeeds, or has failed by then |
| `Esb2.Driver.PutHwSemaphore` | e1000e-0.5.18.3/src/e1000_mac.c:1455-1462 | reads and clears both bits, as the protocol's last two steps |
| `Esb2.Driver.AcquireSwFw` | e1000e-0.5.18.3/src/e1000_80003es2lan.c:404-444 | takes all of the mask or nothing, on every path; bounded number of accesses whatever the others do; it succeeds exactly when a look at SW_FW_SYNC shows the mask free, and fails only after fifty looks that all showed it taken, or when the hardware semaphore was not to be had |
| `Esb2.Driver.ReleaseSwFw` | e1000e-0.5.18.3/src/e1000_80003es2lan.c:454-466 | gives back exactly the mask; the spinning loop ends if the others do not stay in the section for ever |
| `Esb2.Driver.AcquireNvm` | e1000e-0.5.18.3/src/e1000_80003es2lan.c:367-382 | success holds the EEPROM resource and the grant, failure holds what was held before; past the acquire it succeeds exactly when the grant shows in time |
| `Esb2.Driver.ReleaseNvm` | e1000e-0.5.18.3/src/e1000_80003es2lan.c:390-394 | drops the request and gives back the EEPROM resource, and no other |
| `Esb2.Driver.Grant` | e1000e-0.5.18.3/src/e1000_nvm.c:194-218 | succeeds exactly when the grant shows within the first 1000 looks; one that shows only at the last look counts as none |
| `Esb2.Driver.ReadPhy` | e1000e-0.5.18.3/src/e1000_80003es2lan.c:476-531 | on every path what is held is what was held on entry, and the PHY is touched only while it is held; it succeeds exactly when the acquire did, the selection was taken for made and the read did not fail; the page select ends exactly as the selection left it, and the result is the register of the page that is then selected |
| `Esb2.Driver.WritePhy` | e1000e-0.5.18.3/src/e1000_80003es2lan.c:541-597 | the same for the write: the PHY ends exactly as selection and write leave it, whichever of the three transactions are lost or fail, page-select registers included |
| `Esb2.Driver.WriteThenRead` | e1000e-0.5.18.3/src/e1000_80003es2lan.c:476-597 | a write and then a read of register `reg` of page `page` by the driver, among any other agents: without a fault the value comes back and no other register has changed |
| `Esb2.Driver.WriteKmrn` | e1000e-0.5.18.3/src/e1000_80003es2lan.c:1368-1388 | holds afterwards what it held before; success sets the named register and no other |
| `Esb2.Driver.ReadKmrn` | e1000e-0.5.18.3/src/e1000_80003es2lan.c:1333-1356 | holds afterwards what it held before, and changes nothing |
| `Esb2.WritesNamedExactly` | e1000e-0.5.18.3/src/e1000_80003es2lan.c:541-597 | a write to register `reg` of page `page` that reports success stores the data, whatever it is, in that register and nowhere else, if and only if the write itself was not lost and it is not the case that the selection was lost, the read-back failed and the PHY was on another page |
| `Esb2.ReadsNamedExactly` | e1000e-0.5.18.3/src/e1000_80003es2lan.c:476-531 | a read of register `reg` of page `page` that reports success returns it, whatever the registers hold, if and only if it is not the case that the selection was lost, the read-back failed and the PHY was on another page |
| `Esb2.FaultFree` | e1000e-0.5.18.3/src/e1000_80003es2lan.c:476-597 | without a fault a write at offset 32 * page + reg stores the data at that page and register and nowhere else, and a read of the offset returns it; registers 30 and 31 have a page select of their own |
| `Esb2.WrongRegisterWritten` | e1000e-0.5.18.3/src/e1000_80003es2lan.c:500-519 | a lost selection and a failed read-back: success is reported for register 1 of page 5 and register 1 of page 0 has changed |
| `Esb2.MisledDriver` | e1000e-0.5.18.3/src/e1000_80003es2lan.c:541-597 | the same at the driver object, among any other agents |
| `Esb2.Driver.MdicRead` | e1000e-0.5.18.3/src/e1000_phy.c:139-181 | a failed read leaves the caller's variable alone, which is why a failed read-back passes the check |
| `Crc16.ByteCRC16` | lcm/lcm-ap-080414/panel-net.c:200-213 | for every int register, however far it has overflowed, the low 16 bits of the result are eight steps of the polynomial division |
| `Crc16.CalcCRC16Bytes` | lcm/lcm-ap-080414/panel-net.c:215-223 | the untruncated register gives the CRC of the first bytes |
| `Crc16.FeedXor` | lcm/lcm-ap-080414/panel-net.c:200-213 | the CRC is linear: the CRC of a difference is the difference of the CRCs |
| `Crc16.FeedIsShift` | lcm/lcm-ap-080414/panel-net.c:200-213 | up to 16 bits may be added first and shifted through afterwards |
| `Crc16.BurstDetected` | lcm/lcm-ap-080414/panel-net.c:200-223 | two byte strings of any equal length that differ only within 16 consecutive bits have different CRCs |
| `Crc16.DamageDetected` | lcm/lcm-ap-080414/panel-net.c:200-223 | a body with CRC zero that is changed in one byte or in two adjacent bytes has a CRC that is not zero |
| `Crc16.AppendedCrcIsZero` | lcm/lcm-ap-080414/panel-net.c:281-291 | a string followed by its CRC, high byte first, has CRC zero |
| `PanelWire.ReadsDoNotMatter` | lcm/lcm-ap-080414/panel-net.c:603-645 | the parser state survives reads: only the byte stream counts, not how it is cut up |
| `PanelWire.FrameComesThrough` | lcm/lcm-ap-080414/panel-net.c:603-645 | a frame comes through whatever lies before it, unless that ends inside an escape |
| `PanelWire.StreamRoundTrip` | lcm/lcm-ap-080414/panel-net.c:246-297 | any list of frames is dispatched as exactly the original bodies, in order |
| `PanelWire.PortRoundTrip` | lcm/lcm-ap-080414/panel-net.c:603-645 | the same for any split into reads, each data body having CRC zero and carrying the number of its data bytes |
| `PanelWire.LengthSent` | lcm/lcm-ap-080414/panel-net.c:255-297 | a data frame starts with the flag, the command and the length, high byte first, and ends with the flag; its body holds the command, the length, the data and two bytes more |
| `PanelWire.EscapesSent` | lcm/lcm-ap-080414/panel-net.c:271-279 | a flag or an escape among the data goes out behind an escape, every other byte as it is |
| `PanelWire.RoundTripExactly` | lcm/lcm-ap-080414/panel-net.c:266-270 | a frame is read back as meant if and only if none of the bytes sent without escape is a flag or an escape |
| `PanelWire.ShortFrames` | lcm/lcm-ap-080414/panel-net.c:266-270 | for frames that fit the transmit buffer the length bytes are never special, so the command byte alone decides |
| `PanelWire.BufferHolds` | lcm/lcm-ap-080414/panel-net.c:603-645 | at every point of such a stream the receive buffer holds no more than the longest body |
| `PanelProtocol.Delivered` | lcm/lcm-ap-080414/panel-net.c:603-645 | end to end through parser and protocol: the receiver handles exactly the bodies meant, in order, for any split into reads |
| `PanelProtocol.DataAccepted` | lcm/lcm-ap-080414/panel-net.c:300-328 | a connected receiver passes on every intact WRITE frame, in order, and answers none |
| `PanelProtocol.DamageAnswered` | lcm/lcm-ap-080414/panel-net.c:310-328 | a damaged data body is answered with NACK; when connected it is passed on all the same |
| `PanelProtocol.ReplyRanksLower` | lcm/lcm-ap-080414/panel-net.c:331-405 | in every mode a reply ranks strictly below what it answers, and there is at most one |
| `PanelProtocol.Quiesces` | lcm/lcm-ap-080414/panel-net.c:300-405 | no run of two ends delivers more than the sum of the ranks under way at its start |
| `PanelProtocol.StartsConnected` | lcm/lcm-ap-080414/panel-net.c:331-405 | two ends that start together, in every order of delivery, exchange at most eight bodies, and when the line is silent both have taken four and are connected |
| `PanelProtocol.Reconnects` | lcm/lcm-ap-080414/panel-net.c:331-405 | a connected end whose peer starts again: in every order of delivery both are connected after four bodies |
| `PanelProtocol.ConnectedAnswers` | lcm/lcm-ap-080414/panel-net.c:372-404 | the bytes a connected end writes for each command, and its mode afterwards |
| `PanelProtocol.UnconnectedAnswers` | lcm/lcm-ap-080414/panel-net.c:332-371 | the bytes an end that is not connected writes for each command, and its mode afterwards |
| `PanelProtocol.FrameAnswers` | lcm/lcm-ap-080414/panel-net.c:300-328 | what an end does with any body of more than one byte: NACK unless it is connected and the CRC is right, passed on when it is connected and the body is a WRITE |
| `PanelEnd.Panel.PutCharString` | lcm/lcm-ap-080414/panel-net.c:172-190 | everything is written once and in order, for every sequence of partial and failed writes |
| `PanelEnd.Panel.SendCmdFrame` | lcm/lcm-ap-080414/panel-net.c:246-252 | writes the encoding of the command frame |
| `PanelEnd.Panel.SendDataFrame` | lcm/lcm-ap-080414/panel-net.c:255-297 | a frame that fits the 32-byte buffer is written as its encoding: header with the length, high byte first, escaped data, escaped CRC, flag |
| `PanelEnd.Panel.DoFrameAnalysis` | lcm/lcm-ap-080414/panel-net.c:300-328 | does to mode, line and handled bodies what the protocol says for a data body |
| `PanelEnd.Panel.DoCmdAction` | lcm/lcm-ap-080414/panel-net.c:331-405 | does to mode and line what the protocol says for a command, in both modes |
| `PanelEnd.Panel.Receive` | lcm/lcm-ap-080414/panel-net.c:603-645 | one read of any length: buffer, escape flag, mode, line and handled bodies become what the parser and the protocol say |
| `HostInterface.HostIf.CalculateChecksum` | e1000e-0.5.18.3/src/e1000_manage.c:41-52 | the checksum completes the byte sum to 0 mod 256 |
| `HostInterface.HostIf.EnableHostIf` | e1000e-0.5.18.3/src/e1000_manage.c:64-93 | succeeds exactly when the interface is enabled and the command bit is seen clear in one of ten looks |
| `HostInterface.HostIf.HostIfWrite` | e1000e-0.5.18.3/src/e1000_manage.c:257-321 | at any alignment: the RAM bytes [offset, offset+length) become the buffer, the tail of the last dword becomes zero, every other byte is kept, and the sum grows by the byte sum mod 256; rejected exactly for length zero or a range that is too long, with nothing changed |
| `HostInterface.StaysInRam` | e1000e-0.5.18.3/src/e1000_manage.c:273-318 | the writer stays inside the 448 dwords if and only if an unaligned buffer completes its first dword; else the 16-bit length wraps |
| `HostInterface.HostIf.WriteCmdHeader` | e1000e-0.5.18.3/src/e1000_manage.c:225-243 | writes the two header dwords with the checksum that completes the header to zero |
| `HostInterface.HostIf.WriteDhcpInfo` | e1000e-0.5.18.3/src/e1000_manage.c:181-216 | success leaves the whole command in RAM, header and payload summing to 0 mod 256, and the command bit set; it succeeds exactly when the interface is free in time and the length is proper; failure changes no byte and never sets the bit |
| `HostInterface.Balances` | e1000e-0.5.18.3/src/e1000_manage.c:181-243 | the payload sum carried in the checksum field and the header checksum balance, for every payload |
| `ReceiveFilter.Filter.RarSet` | e1000e-0.5.18.3/src/e1000_mac.c:255-282 | the pair becomes the address in little-endian order, valid unless the address is zero, and no other pair changes |
| `ReceiveFilter.LowRegisterOf` | e1000e-0.5.18.3/src/e1000_mac.c:255-282 | the low register holds the first four bytes, lowest first |
| `ReceiveFilter.HighRegisterOf` | e1000e-0.5.18.3/src/e1000_mac.c:255-282 | the high register holds the last two bytes and the valid bit, and is zero for the zero address |
| `ReceiveFilter.MatchesExactly` | e1000e-0.5.18.3/src/e1000_mac.c:255-282 | a pair accepts the address it was set to and no other; one set to zero accepts nothing |
| `ReceiveFilter.Filter.HashMcAddr` | e1000e-0.5.18.3/src/e1000_mac.c:380-440 | equals the closed form ((mc[5]*256+mc[4]) >> (8 - shift)) mod (32*registers) for every table size and filter type; the search ends and 8 - shift is never negative |
| `ReceiveFilter.SearchEnds` | e1000e-0.5.18.3/src/e1000_mac.c:385-393 | the shift search ends if and only if the table has 8, 16, 32, 64 or 128 registers, among 1 to 128 |
| `ReceiveFilter.DocumentedHashes` | e1000e-0.5.18.3/src/e1000_mac.c:408-420 | three of the four values in the source comment are right; for filter type 2 the code computes 0x58D, not 0x163 |
| `ReceiveFilter.Filter.MtaSet` | e1000e-0.5.18.3/src/e1000_mac.c:294-317 | sets the one table bit that the hash names and no other |
| `ReceiveFilter.Filter.UpdateMcAddrList` | e1000e-0.5.18.3/src/e1000_mac.c:332-369 | the pairs in the range hold the first addresses, then zeros, the others are kept, and a table bit is set if and only if an address without a pair hashes to it |
| `ReceiveFilter.ExactAgrees` | e1000e-0.5.18.3/src/e1000_mac.c:332-369 | after an update the pairs accept exactly the nonzero addresses at the front of the list and what the pairs outside the range accept |
| `ReceiveFilter.HashAgrees` | e1000e-0.5.18.3/src/e1000_mac.c:332-369 | the table accepts exactly what hashes like an address that found no pair |
| `ReceiveFilter.ListedAccepted` | e1000e-0.5.18.3/src/e1000_mac.c:332-369 | every nonzero address of the list is accepted |
| `ReceiveFilter.Filter.InitRxAddrs` | e1000e-0.5.18.3/src/e1000_mac.c:171-185 | the first pair holds the MAC address, the rest up to the count are cleared, those beyond are kept |
| `ReceiveFilter.Filter.SetLaaState` | e1000e-0.5.18.3/src/e1000_82571.c:1537-1556 | on an 82571 the last pair becomes a copy of the address; on other parts nothing happens |
| `ReceiveFilter.Filter.Perform` | e1000e-0.5.18.3/src/e1000_82571.c:938-1250 | each driver operation keeps the last pair equal to a locally administered address in force, and does to pairs and table what it says and nothing else: an address set changes the first pair and the last, a reload by the other port the first pair, and neither the table; an update and an initialisation leave out the last pair exactly while such an address is in force |
| `ReceiveFilter.Filter.Run` | e1000e-0.5.18.3/src/e1000_82571.c:938-1250 | over every run, resets of the other port included, some pair accepts the locally administered address |
| `SerdesLink.Serdes.CheckForLink` | e1000e-0.5.18.3/src/e1000_82571.c:1362-1478 | one poll is one transition; it reports an error exactly when it forces the link with a flow-control mode that cannot be forced |
| `SerdesLink.Serdes.ForceMacFc` | e1000e-0.5.18.3/src/e1000_mac.c:1091-1143 | sets the two flow-control bits to the mode, or fails with nothing changed |
| `SerdesLink.KeptExactly` | e1000e-0.5.18.3/src/e1000_82571.c:1409-1441 | a poll keeps state and registers in step if and only if it is not that failing one |
| `SerdesLink.AlwaysConsistent` | e1000e-0.5.18.3/src/e1000_82571.c:1362-1478 | over every sequence of polls forced-up means auto-negotiation off, SLU and FD set; the two auto-negotiation states mean the saved word and SLU clear |
| `SerdesLink.GoesDown` | e1000e-0.5.18.3/src/e1000_82571.c:1451-1474 | after any polls, one without sync or with an invalid code seen twice takes the link down from every state and leaves the registers; a single invalid code changes nothing |
| `SerdesLink.Restarts` | e1000e-0.5.18.3/src/e1000_82571.c:1378-1449 | after any polls, clean sync takes a port that is down, or forced and seeing /C/, back to negotiation with the saved word; a completed negotiation without the link bit is taken up again; else a forced or complete port stays as it is |
| `SerdesLink.HasLinkExactly` | e1000e-0.5.18.3/src/e1000_82571.c:1362-1478 | over every sequence of polls there is link exactly if one of them completed a negotiation or forced the link, or there was link at the start, and no poll after that lost it |
| `SerdesLink.ReachesForcedUp` | e1000e-0.5.18.3/src/e1000_82571.c:1362-1478 | a clean, silent partner is forced up after two polls from every state, and stays so |
| `SerdesLink.ReachesComplete` | e1000e-0.5.18.3/src/e1000_82571.c:1362-1478 | clean sync with link ends in a completed negotiation, unless the link was forced |

## Left out

- FlashController.Flash.EraseBank: stated for any sector size as what the loop issues; that the bank is then erased is claimed only for a bank of one sector, because for every other size it is false.
- FlashController.Flash.WriteByte: models the two-byte form of `e1000_write_flash_data_ich8lan` only for one byte, the only size the driver calls it with.
- IchNvm.Nvm.DetectBank: models the signature path; the EECD fast path of ICH8 and ICH9 reports state the model does not have.
- IchNvm.Nvm.UpdateChecksum: stated for a bank of one erase sector, because with larger ones the commit can lose the image (`IchErase.EraseSafeExactly`); the reload of the EEPROM after a commit and the NVM type test are not modelled; the type is the software-managed flash.
- IchNvm.Nvm.FillOtherBank: stated for a bank of one erase sector, as are the operations that contain it, listed in the next lines.
- IchNvm.Nvm.CommitBank: stated for a bank of one erase sector.
- IchNvm.Nvm.UpdateForReader: stated for a bank of one erase sector.
- IchNvm.Nvm.ValidateChecksum: stated for a bank of one erase sector.
- IchRuns.Perform: stated for a bank of one erase sector.
- IchRuns.Session: stated for a bank of one erase sector.
- Ethtool.SetThenGet: stated for a bank of one erase sector; words 0x13 and 0x3F are left to what a commit makes of them.
- Ethtool.SetThenPowerCycle: stated for a bank of one erase sector.
- Ethtool.GetEeprom: models the word-by-word read loop, which ICH parts use; the single multi-word read of SPI parts returns the same words.
- Ethtool.SetEeprom: stated for a bank of one erase sector; memory allocation and copies from user space always succeed.
- Spi.Port.WriteNvm: EECD bits other than clock, select, data and request, and the microwire interface, are not modelled.
- Esb2.Driver.ReadPhy: a lost or failed MDIC transaction is one of three outcomes; the polling of the ready bit inside it is not modelled.
- Esb2.Driver.ReadKmrn: the register file behind the Kumeran interface is a plain map.
- PanelEnd.Panel.DoFrameAnalysis: the key code that is printed from the fourth byte of a WRITE body is not modelled, only that the body is passed on.
- PanelEnd.Panel.DoCmdAction: the default contents that a reset puts into the transmit buffer are not modelled; every frame sent overwrites them.
- PanelEnd.Panel.SendDataFrame: requires that the frame fits the 32-byte buffer, which the code does not check; what lies behind the buffer is not modelled.
- HostInterface.HostIf.HostIfWrite: requires that an unaligned buffer completes its first dword; `HostInterface.StaysInRam` shows that the writer leaves the RAM exactly when it does not, and what lies behind the RAM is not modelled.
- Esb2.Driver.ReleaseSwFw: requires that the others do not stay in the section for ever; otherwise the loop of the code does not end, and the accessors that contain it do not return.
- PanelEnd.Panel.Receive: requires that no frame outgrows the 22-byte buffer, which the code does not check; `PanelWire.BufferHolds` shows which streams satisfy it.
- PanelProtocol.Quiesces: keyboard commands and the connection timer of the panel program are new input and not part of a run.
- ICH variants of the filter operations: the PHY wake-up copies of the filter on ICH10 parts are not modelled.
- SerdesLink.Serdes.CheckForLink: the copper part of flow-control configuration is not modelled, and the flow-control mode is constant.
- `e1000_reset_hw_80003es2lan`: it ignores a failed acquire and then releases, so it is outside the runs of the semaphore.
- Reading EEPROMs through EERD, the 82571 NVM and semaphore variants, PHY setup, LED control, statistics, rings and interrupts: register pokes without a property that spans operations.
- The ITE8712, bypass, LED, fan and watchdog drivers, and the automatic test copy of the panel program: port sequences and key menus.
- Delays, logging, signals, locking in the kernel and serial-port setup: no effect on the state modelled.
