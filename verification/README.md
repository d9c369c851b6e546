# Netbook installer: a Dafny model of the DSDT patcher and two drivers

The project models three parts of the repository and proves what they do.

**The DSDT patcher** (`DSDT_Patcher/main.c`) rewrites decompiled ACPI source line by line. One line
buffer, one brace count and two "found" flags are shared by nested read loops.

- `Patcher.dfy` has these loops as methods of a class, with the same fields. Every method is proved
  equal to a specification function of its own module: `RtcPass`, `HpetPass`, `HpetInsert`,
  `ConfigPass`, `VersionPass`, `VariousPass`.
- A failed `fgets` leaves the buffer as it was, so a block loop at end of file counts its last line
  again and again. The specifications include that: they have no value exactly when the loop never
  returns (`AslText.BlockReturns`, `RtcPass.Returns`, `HpetPass.Returns`), and that is the only
  precondition of the passes.
- `DsdtTexts` has what `patchHPET` writes, letter for letter.
- A file is the sequence of strings that `fgets` returns. `LineFiles` goes down to characters, with
  the buffer of 2048, and `FileRuns` runs `patchHPET` on whole files. `HpetEnds`, `UnendedFiles` and
  `UnendedInsert` are about a last line without a newline, which can be joined to what is written after it.

**The PIIX/ICH Serial ATA driver.**

- `PciConfig`: two drivers share one configuration space through locked masked writes, modelled step
  by step (lock, read, write, unlock) under any schedule.
- `SataPorts`, `IchSata`: mode and port tables, enable bits, the scan, the power transitions; `SataLaws`:
  the same in ports and register bits.
- `SataRun`: runs of both drivers, with the enable bits lost while everything is off, and the same
  with the drivers interleaved at the level of single register accesses.
- `OpenProtocol`: clients hold channels, channels hold the root, the root holds its PCI provider.

**The ACPI battery driver.** `Battery` gives each handler as a function of the device's fields,
published properties and legacy dictionary; `BatteryDriver` has the handlers as methods. `BatteryLaws` says
what they publish in the numbers and bits of the packages. The packages
are those of `_BIF` (section 10.2.2.1) and `_BST` (section 10.2.2.6) of the ACPI 4.0 specification.

Some promises turned out false of the code. Each has its exact condition, read off the input, and an input on
which it fails (module `Witnesses`):

- `patchRTC` is not idempotent: it takes out one IRQ pair a run (`RtcPass.SecondRun`,
  `Witnesses.RtcIsNotIdempotent`).
- After a pair `patchRTC` does not reset its count, so it scans the next RTC device past its end, and can
  take a pair out of what follows (`RtcPass.EachDeviceExact`, `RtcPass.NextDevice`, `Witnesses.RtcStrays`).
- The HPET insertion does more than insert when no line follows the RTC device, or when another RTC
  device is met later: that one's closing line is written twice (`HpetInsert.InsertsOnlyTheDevice`,
  `HpetInsert.SecondRtcDevice`, `Witnesses.ClosingLineIsRepeated`).
- `patchHPET` can put its IRQs into the template of another device (`HpetPass.ReplacesIrqs`,
  `HpetPass.StrayIrqs`, `Witnesses.HpetStrays`), although a second run still changes nothing.
- That second run does change files without a final newline in which a device loop runs out of lines, and no
  others whose joined lines fit the buffer (`UnendedFiles.MarkedIff`, `UnendedInsert.UnmarkedIsIdempotent`,
  `Witnesses.UnendedLineDoubles`).
- A config patch is followed by a repeated line when the block ends the file
  (`ConfigPass.ReplacesTheBlock`, `Witnesses.PatchLineIsRepeated`).
- The version loop passes over a match flush with the end of the file
  (`VersionPass.EmulatesAllButTheLast`, `Witnesses.FlushMatchStays`), and its output can be more than
  twice as long as the file (`VersionPass.EmulatedLength`, `Witnesses.OutputIsTooLong`).
- The `_T_` renaming can leave a `_T_` behind (`FreshPrefix.RenameLeaves`, `Witnesses.NameIsLeft`).
- The count that a Serial ATA scan returns is not always that of the drives it leaves known
  (`IchSata.ReturnedCount`, `Witnesses.ScanCountIsWrong`).
- A poll that does not get `_BST` can leave the legacy dictionary stale (`Battery.HalfPolled`,
  `Witnesses.DictionaryIsStale`).

A channel's `handleClose` leaves it to its superclass to check the client: `OpenProtocol.UncheckedClose` says
what that check is needed for.

One comment disagrees with the code: `setPowerState` of the battery manager passes 1 and calls it the
new-battery path; that path has number 2, so waking takes the existing path. The model follows the code.

## Model

| member | source | states |
|---|---|---|
| AslText.CmpStr | DSDT_Patcher/main.c:309-318 | true exactly when the needle is a substring |
| AslText.CmpStrWild | DSDT_Patcher/main.c:322-332 | true exactly when the wildcard pattern matches somewhere before the last place it could |
| AslText.StrictBoundIsHarmless | DSDT_Patcher/main.c:324 | the strict bound loses no match on a line whose only newline is last, for a newline-free pattern that does not end in a wildcard |
| AslText.CloseAtIsFirst | DSDT_Patcher/main.c:184-189 | a block ends at the first line after which the per-line brace count, taken as a sum over the lines, is zero, and at none if there is no such line |
| AslText.BlockLoopOverruns | DSDT_Patcher/main.c:551-558 | a block that does not close in the file is written to its end and then its last line again, as often as the count needs to reach zero, or for ever |
| AslText.DrainIsExact | DSDT_Patcher/main.c:184-189 | a stale line that is counted again and again brings the count to zero after exactly that many rounds, or never |
| AslText.CountOfCharacters | DSDT_Patcher/main.c:406-407 | what the two counts see of a line: whether it has an opening and a closing brace, not how many |
| AslText.BlockReturns | DSDT_Patcher/main.c:184-213 | the loop over a block returns after some number of rounds if and only if its specification has a value |
| RtcPass.PassThins | DSDT_Patcher/main.c:394-425 | for any file and any number of RTC devices, only pairs of lines that begin with an IRQ line are taken out; all else stays in order, and only copies of the last line can be added |
| RtcPass.OneDeviceExact | DSDT_Patcher/main.c:394-425 | with one RTC device whose block closes, exactly the first IRQ line in it and the line after go, or nothing |
| RtcPass.MetByName | DSDT_Patcher/main.c:348-421 | a device met by the name Device (RTC, spelled out: the first line with IRQNoFlags () before the count from 0 is zero goes, with the line after it |
| RtcPass.MetById | DSDT_Patcher/main.c:353-421 | the same for a device met by PNP0B00, with the count from 1: its opening brace is behind |
| RtcPass.UnchangedIff | DSDT_Patcher/main.c:394-425 | a file with one RTC device is left as it is if and only if the device has no IRQ line before its end, or has no end and its first IRQ line is the last line of the file |
| RtcPass.SecondRun | DSDT_Patcher/main.c:412-419 | with one RTC device that closes: without an IRQ line the file is a fixed point; otherwise the first pair goes, and a second run changes nothing if and only if the file without it is quiet, wherever the device then ends |
| RtcPass.BalancedPair | DSDT_Patcher/main.c:412-419 | if the pair lies inside the block and its braces balance, a second run finds nothing to do if and only if the device has no other IRQ line |
| RtcPass.EachDeviceExact | DSDT_Patcher/main.c:394-425 | with any number of RTC devices each is scanned from the count that the one before left, and loses the pair found up to where that count is zero; a last one that runs out of lines has its last line again until the count is zero, or for ever |
| RtcPass.NextDevice | DSDT_Patcher/main.c:412-419 | a device is scanned to its own end if and only if the one before it lost no pair; and a pair behind that end is taken out if and only if the device has no IRQ line and one comes before the count is zero or the lines run out |
| RtcPass.Returns | DSDT_Patcher/main.c:404-421 | the device loop returns in some number of rounds if and only if its specification has a value |
| RtcPass.DeviceLoopStep | DSDT_Patcher/main.c:404-421 | one round of the device loop, in the file or past its end, and what makes the rounds end |
| HpetPass.LoopReplays | DSDT_Patcher/main.c:498-520 | the device loop, run on what it wrote, writes it again and stops at the same line, whatever follows |
| HpetPass.PassIsIdempotent | DSDT_Patcher/main.c:488-526 | the pass over HPET devices is idempotent for any number of devices, templates and IRQ pairs |
| HpetPass.LoopKeeps | DSDT_Patcher/main.c:498-520 | a device loop and the copying after it leave the text as it is if and only if the count reaches zero and each template before that line has just the required IRQs |
| HpetPass.UnchangedIff | DSDT_Patcher/main.c:488-526 | a file with one HPET device is a fixed point if and only if that holds of the text after its first line |
| HpetPass.ReplacesIrqs | DSDT_Patcher/main.c:498-520 | in one HPET device the IRQ pairs of the first template are replaced by the two that are required and nothing else in the file changes, if and only if the loop leaves the text behind the line after the pairs as it is |
| DsdtTexts.InterruptsAreWritten | DSDT_Patcher/main.c:28 | the lines put into a device: interrupt 0 and interrupt 8 |
| DsdtTexts.NewDeviceIsWritten | DSDT_Patcher/main.c:21 | the device put into a file, line by line |
| DsdtTexts.InterruptsReplaced | DSDT_Patcher/main.c:363-520 | patchHPET on a file with one HPET device, met by name (count 0) or by PNP0103 (count 1): interrupts 0 and 8 come in place of the pairs of its first template; the exact condition for nothing else to change, and a simple one: the second line after them has no brace |
| HpetPass.StrayIrqs | DSDT_Patcher/main.c:500-518 | when the count, which a template sets to zero, stays away from zero over the lines that follow, past the end of the device or not, the next template gets IRQs too, whatever device it is in |
| HpetPass.Returns | DSDT_Patcher/main.c:498-511 | the device loop, and the skipping of IRQ pairs in it, return if and only if their specifications have a value |
| HpetInsert.PatchIsIdempotent | DSDT_Patcher/main.c:432-572 | running patchHPET on its own output returns that output, for every file on which it returns: device present, device inserted, or neither |
| HpetInsert.InsertsOnlyTheDevice | DSDT_Patcher/main.c:530-569 | with no HPET device and an RTC device that closes, the output is the input with the fixed text inserted once directly after that device, if and only if a line follows and no RTC device is met after that line |
| DsdtTexts.DeviceInserted | DSDT_Patcher/main.c:530-569 | the same with the device spelled out, for an RTC device met by name (count 0) or by PNP0B00 (count 1) |
| HpetInsert.LaterDevice | DSDT_Patcher/main.c:559-566 | after the insertion each RTC device that closes is copied with its closing line written twice, and the pass goes on behind it |
| HpetInsert.LaterDevices | DSDT_Patcher/main.c:559-566 | after the insertion a file without RTC devices is copied, and with one it grows |
| HpetInsert.SecondRtcDevice | DSDT_Patcher/main.c:530-569 | the exact output with two RTC devices: the fixed text after the first one, the closing line of the second one twice, and nothing else changed |
| HpetInsert.FixedStays | DSDT_Patcher/main.c:488-526 | the inserted device is a fixed point of the pass over HPET devices, in any surroundings without another mark of one |
| HpetInsert.InsertShape | DSDT_Patcher/main.c:547-568 | whatever the file, the insertion writes the file itself or only lines of it around one copy of the fixed text |
| LineFiles.ReadsBackIff | DSDT_Patcher/main.c:489 | strings are read back as they were written if and only if each but the last ends in a newline or fills the buffer, and the last has no newline but at its end |
| LineFiles.ReadLinesSplits | DSDT_Patcher/main.c:489 | reading loses no character, and every string read ends in a newline or fills the buffer if the file ends in a newline |
| LineFiles.LongLine | DSDT_Patcher/main.c:7-14 | a line that is too long is cut after 2047 characters |
| HpetEnds.EndsReadable | DSDT_Patcher/main.c:488-526 | if every device loop ends at a line of the file, the pass returns and what it writes is read back |
| HpetEnds.LastTwice | DSDT_Patcher/main.c:498-526 | if one does not, and the pass returns, the last line is written twice |
| HpetEnds.InsertReadable | DSDT_Patcher/main.c:530-569 | the same for the insertion, if every RTC device that is met closes and a line follows |
| FileRuns.PatchTextIsIdempotent | DSDT_Patcher/main.c:432-572 | patchHPET on whole files, character by character, is idempotent for every input whose last line is ended or fills the buffer, and for the others if every block loop ends at a line of the file |
| UnendedFiles.MarkedIff | DSDT_Patcher/main.c:432-572 | for an input with a mark of an HPET device and an unended last line that condition is exact: patchHPET is idempotent if and only if every device loop ends at a line of the file, as long as the joined lines fit the buffer |
| UnendedFiles.LoopOverruns | DSDT_Patcher/main.c:498-520 | what is read of the output of a loop that runs out of lines is not kept by it: its last line is joined to copies of itself or to an inserted line |
| UnendedInsert.UnmarkedIsIdempotent | DSDT_Patcher/main.c:530-569 | for an input without such a mark patchHPET is idempotent wherever its unended last line goes, as long as the joined lines fit the buffer and make no mark |
| FileRuns.Doubles | DSDT_Patcher/main.c:432-572 | a file that is one unended line with the mark of an HPET device and no brace is doubled by every run until it fills the buffer |
| ConfigPass.ReplacesTheBlock | DSDT_Patcher/main.c:175-218 | a config entry yields the lines before, the patch file and the lines after the first matching block, later matches copied, if and only if a line follows the block |
| ConfigPass.BlockEndsTheFile | DSDT_Patcher/main.c:196-218 | when the block ends the file the last line of the patch file, or else the closing line, is written once more |
| ConfigPass.UnmatchedIsTheFile | DSDT_Patcher/main.c:175-223 | without a match the output is the input, and the patch counts as failed |
| ConfigPass.DepthIsKept | DSDT_Patcher/main.c:184-217 | the brace depth at every line after the block is what it was if and only if the patch counts as much as the header line |
| Replace.RoundTrip | DSDT_Patcher/main.c:755-777 | replacing back recovers the text, and the copies of the new text are as many as the matches, when its first character is its only one of the kind and every copy already there has a match in it |
| Replace.CopiedText | DSDT_Patcher/main.c:761-776 | a stretch of output without that character was copied from the input, with no match starting in it |
| Replace.SubstLength | DSDT_Patcher/main.c:761-776 | the length of the result by the number of matches, and how many matches fit |
| Replace.OnlyFlushIsMissed | DSDT_Patcher/main.c:603-616 | the loop replaces every match if and only if the text does not end with one |
| VersionPass.EmulateRoundTrip | DSDT_Patcher/main.c:573-617 | for both systems and every file, putting the short form back recovers the file, though the long form contains the short one and may have been there before |
| VersionPass.EmulatedText | DSDT_Patcher/main.c:584-595 | the two replacements, letter for letter, for systems 1 and 2 |
| VersionPass.EmulatedLength | DSDT_Patcher/main.c:602-617 | the output is 23 characters longer for each match, and fits twice the file's length exactly when there are few enough |
| VersionPass.EmulatesAllButTheLast | DSDT_Patcher/main.c:603-617 | all matches are replaced if and only if the file does not end with one |
| FreshPrefix.TokensAreAll | DSDT_Patcher/main.c:651-653 | the number of every prefix that a text contains is among those read off it from left to right without overlap |
| FreshPrefix.PrefixText | DSDT_Patcher/main.c:651 | a prefix is T, its number in decimal without leading zeros, and _ |
| FreshPrefix.SearchIsBounded | DSDT_Patcher/main.c:648-661 | if the first n prefixes are all used, the file has at least 3n characters, so the search ends |
| FreshPrefix.RenameRoundTrip | DSDT_Patcher/main.c:755-782 | with an unused prefix the renaming of a line can be undone, and the prefix then occurs exactly where it was put |
| FreshPrefix.RenameIsInjective | DSDT_Patcher/main.c:755-782 | two lines of the file are the same after the renaming exactly if they were before |
| FreshPrefix.RenameLeaves | DSDT_Patcher/main.c:755-782 | a renamed line still contains the temporary name exactly when a match was followed by T_ not itself part of a match |
| FreshPrefix.RenameFits | DSDT_Patcher/main.c:760-777 | the length of a renamed line, at most four times the line for any int prefix number |
| VariousPass.PassCanBeUndone | DSDT_Patcher/main.c:663-797 | on a file that needs no other fix, the whole pass with an unused prefix can be undone line by line, but for a processor line at the very end, which is there twice |
| VariousPass.AliasFreeMeansDone | DSDT_Patcher/main.c:686-745 | the modelled pass goes through if and only if no alias line follows a processor line |
| VariousPass.EachLine | DSDT_Patcher/main.c:664-797 | each line of the file and what stands in its place: a star name loses exactly its first star, a processor line is copied, a Local0 line gives Store ("Local0", Local0), a line with _T_ is renamed, a mute line gives Acquire (MUTE, 0xFFFF), and any other line is kept; the line after a processor line is not looked at for the first two |
| DsdtPatcher.Patcher.Gets | DSDT_Patcher/main.c:395 | one read: the next line, or at end of file the buffer as it was |
| DsdtPatcher.Patcher.ScanRtcDevice | DSDT_Patcher/main.c:404-421 | the loop over an RTC device does what its specification says, past the end of the file as well, and ends |
| DsdtPatcher.Patcher.PatchRtc | DSDT_Patcher/main.c:377-429 | the pass writes what its specification says, for every file on which it returns |
| DsdtPatcher.Patcher.ScanHpetDevice | DSDT_Patcher/main.c:498-520 | the loop over an HPET device does what its specification says, and ends |
| DsdtPatcher.Patcher.PatchHpetDevices | DSDT_Patcher/main.c:488-528 | the pass over HPET devices writes what its specification says, and sets the found flag exactly if the file has a mark of one |
| DsdtPatcher.Patcher.AddHpetDevice | DSDT_Patcher/main.c:530-570 | the insertion pass writes what its specification says |
| DsdtPatcher.Patcher.PatchHpet | DSDT_Patcher/main.c:432-572 | both passes together write what is proved idempotent |
| DsdtPatcher.Patcher.PatchFromConfig | DSDT_Patcher/main.c:170-226 | one config entry has the outcome its specification gives, a missing patch file included |
| DsdtPatcher.Patcher.PatchVersion | DSDT_Patcher/main.c:573-622 | the replacement for the system chosen, nothing for Darwin |
| DsdtPatcher.Patcher.ReplaceAll | DSDT_Patcher/main.c:603-617 | the byte loop is the leftmost non-overlapping replacement of every match but one flush with the end |
| DsdtPatcher.Patcher.FindFreePrefix | DSDT_Patcher/main.c:648-661 | the least number whose prefix occurs in no line, and three times it is at most the length of the file |
| DsdtPatcher.Patcher.RenameLine | DSDT_Patcher/main.c:760-777 | the rewrite writes exactly n + m(L-3) + 2 characters, all inside 5n + 10, and they are the renamed line with its terminators |
| DsdtPatcher.Patcher.PatchVarious | DSDT_Patcher/main.c:625-805 | the prefix chosen is the least unused one, and the pass writes what its specification says |
| PciConfig.StepInv | Kext Sources/AppleIntelPIIXATA/AppleIntelPIIXATARoot.cpp:633-663 | every step of any driver keeps: one holder, bytes in hand still current, registers equal to the logged writes in order |
| PciConfig.Serializable | Kext Sources/AppleIntelPIIXATA/AppleIntelPIIXATARoot.cpp:633-663 | under every schedule the registers end as some order of all masked writes makes them, each driver's own order kept, none lost |
| PciConfig.NoDeadlock | Kext Sources/AppleIntelPIIXATA/AppleIntelPIIXATARoot.cpp:639-646 | while a driver has something to do, some driver can move |
| PciConfig.Finishes | Kext Sources/AppleIntelPIIXATA/AppleIntelPIIXATARoot.cpp:633-663 | from every state that a run reaches, some schedule finishes all programs |
| PciConfig.OwnedBits | Kext Sources/AppleIntelPIIXATA/AppleIntelPIIXATARoot.cpp:633-663 | bits that only one driver writes hold what it wrote last, under every schedule; bits nobody writes are unchanged |
| SataPorts.ChannelsShareNoPort | Kext Sources/AppleIntelPIIXATA/AppleIntelPIIXATARoot.cpp:286-335 | for every controller name and mapping register the two channels have no port in common |
| SataPorts.UnitsHaveTheirOwnPort | Kext Sources/AppleIntelPIIXATA/AppleIntelPIIXATAChannel.cpp:42-52 | the drive units of a channel have different ports |
| SataPorts.DefaultIsIndependent | Kext Sources/AppleIntelPIIXATA/AppleIntelPIIXATARoot.cpp:698-704 | the enable bits of the default port map are disjoint |
| SataLaws.PortLists | Kext Sources/AppleIntelPIIXATA/AppleIntelPIIXATAChannel.cpp:42-52 | the ports of the units in each channel mode |
| SataLaws.Ich5Layout | Kext Sources/AppleIntelPIIXATA/AppleIntelPIIXATARoot.cpp:39-55 | the ports of both channels of an ICH5 for each value of the mapping register |
| SataLaws.Ich6Layout | Kext Sources/AppleIntelPIIXATA/AppleIntelPIIXATARoot.cpp:59-118 | the same for all other controllers; the mobile ones have no ports 1 and 3 |
| SataLaws.NoLayout | Kext Sources/AppleIntelPIIXATA/AppleIntelPIIXATARoot.cpp:284-300 | parallel channels without a Serial ATA controller, disabled ones without a name |
| SataLaws.DefaultBits | Kext Sources/AppleIntelPIIXATA/AppleIntelPIIXATARoot.cpp:698-704 | the bits of register 0x92: 0 to 3 enable ports 0 to 3, 4 to 7 report a device on them |
| SataLaws.PropertyMap | Kext Sources/AppleIntelPIIXATA/AppleIntelPIIXATARoot.cpp:725-731 | a map given as a property is used if it has four entries |
| SataPorts.CommandsAreAMap | Kext Sources/AppleIntelPIIXATA/AppleIntelPIIXATARoot.cpp:746-755 | the register refines a map: a port is enabled exactly if the last command on it said so |
| SataPorts.OtherBitsAreLeft | Kext Sources/AppleIntelPIIXATA/AppleIntelPIIXATARoot.cpp:746-755 | register bits that no port has hold what they did, after the commands of one driver and after those of several under every schedule |
| SataPorts.InterleavedCommands | Kext Sources/AppleIntelPIIXATA/AppleIntelPIIXATARoot.cpp:633-755 | with the commands of two drivers interleaved in any way, each port is as its own driver's last command says |
| IchSata.RoundsBound | Kext Sources/AppleIntelPIIXATA/AppleIntelICHxSATA.cpp:248-273 | the reset loop does at least one full round, and at most four |
| IchSata.RoundsExact | Kext Sources/AppleIntelPIIXATA/AppleIntelICHxSATA.cpp:248-273 | one reset round for each second begun until the first poll that is not busy |
| IchSata.ScanLast | Kext Sources/AppleIntelPIIXATA/AppleIntelICHxSATA.cpp:242-311 | after a scan exactly the ports of the known drives are enabled |
| IchSata.ConfirmedDrives | Kext Sources/AppleIntelPIIXATA/AppleIntelICHxSATA.cpp:286-298 | a drive stays known if and only if it was found, its unit exists, and the presence bits of its port are set |
| SataLaws.ScanInBits | Kext Sources/AppleIntelPIIXATA/AppleIntelICHxSATA.cpp:242-311 | a whole scan in the bits of register 0x92: bit 4 + port decides which drives found are known, and bit port is then set for just those |
| IchSata.ResetIsOffThenOn | Kext Sources/AppleIntelPIIXATA/AppleIntelICHxSATA.cpp:248-258 | in a scan a port of the channel is switched on only right after it was switched off, and is switched on |
| IchSata.ReturnedCount | Kext Sources/AppleIntelPIIXATA/AppleIntelICHxSATA.cpp:281-310 | the number returned, if the bus scan counted the drives it found, is too large by the drives struck out, and that of the known drives if and only if there are none |
| IchSata.AtaRoot.SetSerialATAPortEnable | Kext Sources/AppleIntelPIIXATA/AppleIntelPIIXATARoot.cpp:746-755 | the port command on the registers, nothing for a port that no drive has |
| IchSata.SataChannel.ScanForDrives | Kext Sources/AppleIntelPIIXATA/AppleIntelICHxSATA.cpp:242-311 | the scan gives the commands specified, and leaves known exactly the drives found whose unit exists and whose port reports a device |
| IchSata.SataChannel.SetPowerState | Kext Sources/AppleIntelPIIXATA/AppleIntelICHxSATA.cpp:338-362 | off marks a refresh as pending; the next other state sets every port by its drive |
| SataRun.NextInv | Kext Sources/AppleIntelPIIXATA/AppleIntelICHxSATA.cpp:338-362 | each scan, power request or loss of context keeps the ports of both channels in step with their drive tables |
| SataRun.OthersAreKept | Kext Sources/AppleIntelPIIXATA/AppleIntelICHxSATA.cpp:242-362 | no event of one channel changes a port of the other |
| SataRun.PortsFollowTheDrives | Kext Sources/AppleIntelPIIXATA/AppleIntelICHxSATA.cpp:242-362 | over every run on any controller, a channel that was scanned and has no refresh pending has each port enabled exactly when its drive is known |
| SataRun.InterleavedDrivers | Kext Sources/AppleIntelPIIXATA/AppleIntelICHxSATA.cpp:242-362 | the same with both drivers at work at once, their register accesses interleaved in any way, and the context lost any number of times in between |
| OpenProtocol.NextInv | Kext Sources/AppleIntelPIIXATA/AppleIntelPIIXATARoot.cpp:567-612 | each request keeps: provider open exactly when a channel is held, held nubs known, provider opens and closes alternate, root held for exactly the channels in use |
| OpenProtocol.AllRunsHold | Kext Sources/AppleIntelPIIXATA/AppleIntelPIIXATARoot.cpp:567-612 | the same across all sequences of requests of any clients |
| OpenProtocol.OpenSucceeds | Kext Sources/AppleIntelPIIXATA/AppleIntelPIIXATAChannel.cpp:218-232 | a channel opens if and only if the root knows it, does not hold it, is or can be opened, and the superclass agrees; and what it then holds |
| OpenProtocol.RefusedOpenLeavesNoHold | Kext Sources/AppleIntelPIIXATA/AppleIntelPIIXATAChannel.cpp:218-232 | a channel open refused by the superclass leaves no hold at the root |
| OpenProtocol.CloseUndoesOpen | Kext Sources/AppleIntelPIIXATA/AppleIntelPIIXATAChannel.cpp:218-239 | an open and the owner's close give back the state |
| OpenProtocol.UncheckedClose | Kext Sources/AppleIntelPIIXATA/AppleIntelPIIXATAChannel.cpp:234-239 | what the superclass has to check: a close that reaches the channel keeps the holds consistent if and only if the client is the owner or the channel is not in use |
| OpenProtocol.AtaRoot.HandleOpen | Kext Sources/AppleIntelPIIXATA/AppleIntelPIIXATARoot.cpp:567-592 | the whole new state of root and provider after an open request |
| OpenProtocol.AtaRoot.HandleClose | Kext Sources/AppleIntelPIIXATA/AppleIntelPIIXATARoot.cpp:599-612 | the whole new state of root and provider after a close request |
| OpenProtocol.AtaRoot.HandleIsOpen | Kext Sources/AppleIntelPIIXATA/AppleIntelPIIXATARoot.cpp:619-625 | without a client, open exactly when the provider is |
| OpenProtocol.AtaChannel.HandleOpen | Kext Sources/AppleIntelPIIXATA/AppleIntelPIIXATAChannel.cpp:218-232 | the new state of channel and root, an answer of the superclass given |
| OpenProtocol.AtaChannel.HandleClose | Kext Sources/AppleIntelPIIXATA/AppleIntelPIIXATAChannel.cpp:234-239 | the new state of channel and root |
| Battery.PolledInv | Kext Sources/AppleACPIBatteryManager/AppleACPIBatteryDevice.cpp:240-274 | a poll leaves the timer armed; with battery absent or both packages answered, the legacy dictionary agrees and a full battery has its whole capacity |
| Battery.BstSettles | Kext Sources/AppleACPIBatteryManager/AppleACPIBatteryDevice.cpp:787-968 | a _BST sample leaves the legacy dictionary equal to the function of the properties, and full means current equals maximum, if the published maximum is the field |
| Battery.AllRunsHold | Kext Sources/AppleACPIBatteryManager/AppleACPIBatteryDevice.cpp:225-319 | in every state after start: present implies bit 0x10 of the recorded _STA, the poll timer is armed, the polling index is 0 or 1 unless overridden, charging implies external power |
| Battery.HalfPolled | Kext Sources/AppleACPIBatteryManager/AppleACPIBatteryDevice.cpp:240-274 | a poll from a state in step leaves the legacy dictionary in step if and only if the battery is absent, or _BST was answered, or battery presence, capacity and cycle count are what was published |
| BatteryLaws.StatusIsPublished | Kext Sources/AppleACPIBatteryManager/AppleACPIBatteryDevice.cpp:817-916 | charging, external power, charge capability and full charge by the two bits of the battery state |
| BatteryLaws.NumbersArePublished | Kext Sources/AppleACPIBatteryManager/AppleACPIBatteryDevice.cpp:787-795 | voltage and capacity by their places in the package; a full battery has the maximum |
| BatteryLaws.RestIsKept | Kext Sources/AppleACPIBatteryManager/AppleACPIBatteryDevice.cpp:787-968 | what a sample does not touch |
| BatteryLaws.AmperageIsPublished | Kext Sources/AppleACPIBatteryManager/AppleACPIBatteryDevice.cpp:842-916 | the amperage is minus the average rate when discharging, the rate when charging, and zero otherwise |
| BatteryLaws.RateIsTaken | Kext Sources/AppleACPIBatteryManager/AppleACPIBatteryDevice.cpp:798-805 | the rate that counts, for each 16-bit number of the package |
| BatteryLaws.AverageIsTaken | Kext Sources/AppleACPIBatteryManager/AppleACPIBatteryDevice.cpp:807-815 | zero after a status change, then the first rate, then the mean with the last average |
| BatteryLaws.TimeIsPublished | Kext Sources/AppleACPIBatteryManager/AppleACPIBatteryDevice.cpp:842-916 | the minutes that the capacity lasts, or takes, at the average rate |
| BatteryLaws.IntervalIsChosen | Kext Sources/AppleACPIBatteryManager/AppleACPIBatteryDevice.cpp:918-931 | quick polling exactly below five per cent with external power, unless overridden or without a maximum |
| BatteryLaws.LegacyIsPublished | Kext Sources/AppleACPIBatteryManager/AppleACPIBatteryDevice.cpp:400-423 | the legacy dictionary, entry by entry |
| BatteryLaws.PollReads | Kext Sources/AppleACPIBatteryManager/AppleACPIBatteryDevice.cpp:240-274 | a poll that finds a battery takes over _STA and objects 2 and 13 of _BIF, and ends the read timer if _BST is answered |
| BatteryLaws.PollClears | Kext Sources/AppleACPIBatteryManager/AppleACPIBatteryDevice.cpp:240-274 | a poll that finds none clears what is published |
| BatteryLaws.TimersAreHandled | Kext Sources/AppleACPIBatteryManager/AppleACPIBatteryDevice.cpp:298-319 | both timers and waking read the battery and arm the poll timer, and none sets the read timer |
| BatteryLaws.StartSetsTimer | Kext Sources/AppleACPIBatteryManager/AppleACPIBatteryDevice.cpp:188-196 | the start sets the read timer, which runs until _BST is answered |
| BatteryLaws.MissingNumber | Kext Sources/AppleACPIBatteryManager/AppleACPIBatteryDevice.cpp:970-978 | an object that is missing or no number counts as 0xFFFFFFFF |
| BatteryLaws.NotificationIsHandled | Kext Sources/AppleACPIBatteryManager/AppleACPIBatteryManager.cpp:157-186 | a notification with the same _STA reads the battery, with a new one reads it anew or, without bit 4, clears it |
| BatteryLaws.OverrideIsKept | Kext Sources/AppleACPIBatteryManager/AppleACPIBatteryDevice.cpp:148-160 | the debug period is the polling interval from the start, and is not set again |
| Battery.MeanIsBetween | Kext Sources/AppleACPIBatteryManager/AppleACPIBatteryDevice.cpp:807-808 | the 32-bit mean lies between its two rates if and only if their sum does not wrap |
| Battery.AverageOverRuns | Kext Sources/AppleACPIBatteryManager/AppleACPIBatteryDevice.cpp:787-815 | over every run with 16-bit rates the average is zero or between the least and greatest effective rate since the last status change |
| Battery.AmperageHasDirection | Kext Sources/AppleACPIBatteryManager/AppleACPIBatteryDevice.cpp:842-916 | for a 16-bit rate and an average below 2^31 the published amperage is negative only without external power, and is the average rate with the sign of its direction |
| BatteryDriver.BatteryDevice.SetBatteryBST | Kext Sources/AppleACPIBatteryManager/AppleACPIBatteryDevice.cpp:787-968 | the whole new state after a _BST package |
| BatteryDriver.BatteryDevice.ClearBatteryState | Kext Sources/AppleACPIBatteryManager/AppleACPIBatteryDevice.cpp:326-393 | the whole new state after clearing; external power and the full flag stay as they were |
| BatteryDriver.BatteryDevice.PollBatteryState | Kext Sources/AppleACPIBatteryManager/AppleACPIBatteryDevice.cpp:240-274 | the whole new state after a poll on either path |
| BatteryDriver.BatteryDevice.DeviceNotification | Kext Sources/AppleACPIBatteryManager/AppleACPIBatteryManager.cpp:157-186 | a notification polls, polls anew or clears; a removal does not touch the recorded _STA |
| BatteryDriver.BatteryDevice.SetPollingInterval | Kext Sources/AppleACPIBatteryManager/AppleACPIBatteryDevice.cpp:225-232 | a positive interval selects index 0 unless polling is overridden |
| Witnesses.RtcIsNotIdempotent | DSDT_Patcher/main.c:412-419 | a device with two pairs loses one in each of two runs |
| Witnesses.RtcStrays | DSDT_Patcher/main.c:404-421 | two RTC devices, the second without an IRQ line: a pair of the block behind it is taken out |
| Witnesses.HpetStrays | DSDT_Patcher/main.c:498-520 | an HPET device and another one: the other's template is given the IRQs |
| Witnesses.ClosingLineIsRepeated | DSDT_Patcher/main.c:559-566 | an RTC device that ends the file: its closing line is written again after the inserted text |
| Witnesses.UnendedLineDoubles | DSDT_Patcher/main.c:432-572 | a file of one unended line gets twice as long in each of two runs |
| Witnesses.UnendedLineRunsOut | DSDT_Patcher/main.c:432-572 | the condition for unended files, applied to that file: a device loop runs out of lines, so a second run changes it |
| Witnesses.PatchLineIsRepeated | DSDT_Patcher/main.c:205-217 | a block that ends the file: the last line of the patch file is written twice |
| Witnesses.OutputIsTooLong | DSDT_Patcher/main.c:587-617 | a file of 22 characters becomes one of 45 |
| Witnesses.FlushMatchStays | DSDT_Patcher/main.c:603-616 | a file that is one match is left as it is |
| Witnesses.NameIsLeft | DSDT_Patcher/main.c:755-782 | _T_T_ keeps a temporary name, whatever the prefix |
| Witnesses.ScanCountIsWrong | Kext Sources/AppleIntelPIIXATA/AppleIntelICHxSATA.cpp:281-310 | two drives found on a channel with one unit: fewer are known than counted |
| Witnesses.StrangerCloses | Kext Sources/AppleIntelPIIXATA/AppleIntelPIIXATAChannel.cpp:234-239 | what the superclass's check is needed for: were another client's close to get through, it would break the hold invariant |
| Witnesses.DictionaryIsStale | Kext Sources/AppleACPIBatteryManager/AppleACPIBatteryDevice.cpp:240-274 | a start with a battery and without answers leaves a dictionary that says there is none |

## Left out

- VariousPass.PassCanBeUndone: assumes that only the renaming applies, because the other fixes replace a line by a constant and cannot be undone.
- HpetPass.ReplacesIrqs: a template whose IRQ pairs run to the end of the file; UnchangedIff covers it, as a file that changes.
- UnendedFiles.MarkedIff: files whose joined last lines do not fit the buffer, or whose line before the last is cut by it: there braces are counted once for each part.
- UnendedInsert.UnmarkedIsIdempotent: the same, and files in which copies of the last line make a mark where they meet.
- DsdtPatcher.Patcher.PatchVarious: excludes a file in which an alias line follows a processor line, because that branch is left out.
- The CPU alias branch of patchVarious: it switches files in the middle of the pass through a mistyped path; a file in which an alias line follows a processor line is excluded.
- The -newHPET branch of patchHPET: it repeats the splice.
- The character buffers of fixed size (100 characters in the star fix, 200 for config names, 2 * flen in patchVersion): only the lengths are stated.
- Removing a star from a device name is one expression of the model, not the loop with its strcpy calls.
- Line text goes to fprintf as a format: lines are taken to hold no percent sign, and no NUL.
- The brace count is an unbounded integer: a stale line with an opening brace never returns, where the C int would overflow.
- patchVersion has the system hard-wired to Darwin; the model takes it as a parameter.
- Files, system calls, command line and the strtok parsing of the config file.
- Timing registers of the PIIX driver: their writes are masked writes of the model, but what they hold is not.
- The polled adapter, interrupts, native-mode and legacy channel resources of the ATA driver.
- Bus scan, presence bits and status register of the hardware, and the answers of superclasses and of ACPI, are parameters that can be anything.
- A close request reaches a channel's handleClose only from the client that has it open: that check is the superclass's.
- Battery serial numbers, cell voltages, temperature and the separate average and instant times.
- Timer periods in milliseconds, the error log, and the start-up path without a battery device.
- The setters of IOPMPowerSource are taken to store what they are given.
