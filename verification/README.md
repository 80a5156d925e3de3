# U-Boot command layer: a verified model

The generic commands of this U-Boot tree (`CustomUboot/common`) receive, parse,
store and move data on bare hardware. This project models the algorithms inside
them and proves what they keep, what they deliver, and under exactly which
condition a promise holds where it does not always. Code that changes state step
by step is modelled by methods with loops over arrays and object fields; each is
proved against functions on plain values, and the theorems are about those
functions and about all runs of the methods.

`dafny verify dfyconfig.toml` checks everything.

| modules | what they model |
|---|---|
| `KermitCodec`, `KermitPacket`, `KermitSession`, `KermitAnswers`, `KermitReceiver`, `KermitLine` | the Kermit receiver of `loadb`: control quoting, packet format, checkpoint and rollback by sequence number, what each transmission is answered, the receiver itself against the bytes on the line, and a sender over a line with noise and damage (Kermit Protocol Manual, 6th edition: packet format, prefix encoding, block check type 1) |
| `SRecord` | the memory upload as Motorola S-records (S3 data records, S7 end record) |
| `MtdNumbers`, `MtdGrammar`, `MtdSorting`, `MtdRoundTrip`, `MtdSoundness`, `MtdWritten`, `MtdWhole`, `MtdParser` | the `mtdparts` text: sizes, parser, printer, how they fit together, and what any written text means |
| `MtdList` | the live partition lists and the index of the current partition |
| `EnvEntries`, `EnvStore`, `EnvCalls` | the environment as an ordered map, as one flat array of characters edited in place, and what a call does by its name |
| `MemTest` | the RAM test, against memory with aliased address lines and stuck bits |
| `Flash` | address ranges resolved to sectors of several flash banks, and sector protection |
| `Idme` | the update of the boot area's identity data, with power failures at any block |
| `Fdc` | reading blocks from a floppy disk, with two levels of retries |
| `Eeprom` | transfers cut into bursts for a device whose address counter wraps |
| `Bedbug` | the PowerPC assembler, and what the disassembler reads back |
| `Fastboot` | downloads in USB packets, and images flashed in chunks |
| `Bootm` | memory layout and RAM disk copy when booting Linux |
| `CircularBuffer`, `LogBuffer` | the circular buffer, and the log ring with its level tags |
| `Wrappers`, `Arithmetic` | shared types; products, quotients and bits of numbers |

## Where the code does not keep a natural promise

For each of these the code is modelled as it is, and the lemma gives the exact
condition.

- **Kermit.** The receiver states an assumption about itself: the sequence byte
  is read correctly. A packet refused before that byte rolls back to the start of
  the current group, although the group may have been acknowledged
  (`GarbledDropsGroup`, `AcknowledgedBytesLost`). `RunDelivers` says what arrives
  in general; `SenderPayloadExactly`, that the data of a sender is complete exactly
  if every packet whose number is not read the first time is preceded by one
  without data; and `SenderDeliversExactly`, that the file arrives exactly then,
  unless it has the byte of `EighthBitHidesLoss` in it.
- **Quoting.** Unquoting inverts quoting for exactly the quote characters 33-62
  and 96-126 (`LegalQuoteExactly`).
- **mtdparts.** What is printed is not always read back: a partition of 2^32-1
  bytes prints as a number that reads as "all remaining space", after which no
  partition may follow; one below 4096 bytes, which a fill-up can leave, is refused;
  and partitions with one offset change places. The round trip holds exactly if
  none of this occurs (`RoundTrip`, `EarlyFillUpIsLost`, `SmallFillUpIsLost`,
  `TiedAreMoved`).
- **Current partition.** Deleting a partition moves the index down if its offset
  is not above the current one's. That is wrong exactly if the deleted one has
  the same offset and stands behind (`CurrentAfterRemove`), and takes the index
  out of range exactly if the current one is number 0 (`RemovedIndex`,
  `TieLeavesRange`); `index_partitions` then reads the name of a partition that is
  not there, through a null pointer. An insertion makes it name another partition
  exactly if it moves up from 255 (`InsertedIndex`).
- **Write-once variables.** `serial#` and `ethaddr` are protected by their plain
  names only. A name with an equals sign, such as `serial#=x`, finds the same
  entry and deletes it (`WriteOnceExactly`, `DisguiseDeletes`).
- **RAM test.** The walking-ones test alone misses an aliased line exactly behind
  a cell that is stuck at the pattern in all 32 bits
  (`PassingMeansUnaliasedExactly`), and tests nothing of an odd number of words;
  the whole test misses nothing of the fault model.
- **Flash ranges.** A range that starts with the last byte of a bank and ends inside
  a sector selects nothing, and no error is returned (`FillSectRanges`,
  `NothingReported`).
- **IDME.** The boot area always recovers; the user area is cleared exactly if the
  first run that reaches it writes two blocks of it (`UserIsClearedExactly`).
- **Floppy.** The result bytes of a read are fetched and not looked at: an error in
  the last sector of a side is taken for success (`ReadData`, `ErrorIsTaken`). The
  track register has eight bits; from block 256 times the blocks of a track on,
  other blocks are read without an error (`PhysicalIsRemainder`, `TrackWraps`).
- **EEPROM.** A range whose end wraps around at 32 bits transfers nothing and
  reports success (`Write`, `Read`, `LastBytesAreLost`).
- **Branches.** A target survives exactly if it is whole words away and in range;
  the assembler reports no error otherwise (`BranchTarget`, `AddressSurvives`).
- **Multiflash.** A chunk that does not follow whole sectors overwrites the end of
  the one before (`ChunkLandsBehind`, `AllInPlaceExactly`, `NextChunkOverwrites`).
  An image that is never finished leaves its offset behind for the next one
  (`FlashImage` starts there).
- **Log.** A reset in the middle of a line leaves the rest of it without a level
  (`TaggedAfterReset`).
- **RAM disk.** A length that does not fit below the place chosen wraps around
  (`LayoutIsSound`, `LimitBelowLengthWraps`). With a log buffer the user's limit is
  raised to the buffer's start, so that limits below it, "do not load high"
  included, have no effect (`LogBufferLimitIsNone`, `LogBufferOverridesExactly`).
  The copy in chunks is wrong exactly if it overruns its own source
  (`CopyIsRightExactly`).

## Model

| member | source | states |
|---|---|---|
| `KermitCodec.MasksAsArithmetic` | CustomUboot/common/cmd_load.c:569-577 | the bit masks of the reception check and of `ktrans`, read as arithmetic on bytes |
| `KermitCodec.QuotingTable` | CustomUboot/common/cmd_load.c:569-577 | which characters stand for which others, and how a byte is quoted, as ranges of characters |
| `KermitCodec.DecodeAppend` | CustomUboot/common/cmd_load.c:690-705 | cutting the data between packets anywhere, even behind a quote character, makes no difference to what is decoded |
| `KermitCodec.UnquoteQuote` | CustomUboot/common/cmd_load.c:656-705 | unquoting inverts the standard prefix encoding for every byte string and every legal quote character (33-62, 96-126) |
| `KermitCodec.LegalQuoteExactly` | CustomUboot/common/cmd_load.c:690-705 | among the printable characters exactly the legal quotes have that property |
| `KermitCodec.QuotedIsPrintable` | CustomUboot/common/cmd_load.c:933-940 | no character of the encoded data is taken for a reception error |
| `KermitPacket.ScanDataExactly` | CustomUboot/common/cmd_load.c:930-957 | the data loop accepts exactly the announced number of printable characters, then their block check, then the end character |
| `KermitPacket.AcceptedIsFrame` | CustomUboot/common/cmd_load.c:865-957 | whatever is accepted is a well-formed short or long packet with right checks and exactly these fields |
| `KermitPacket.FrameIsAccepted` | CustomUboot/common/cmd_load.c:865-957 | every well-formed packet is accepted with exactly its fields, and reading goes on right behind it |
| `KermitPacket.NoiseIsSkipped` | CustomUboot/common/cmd_load.c:852-863 | line noise before the start character changes nothing |
| `KermitPacket.ShortFrameIsAccepted` | CustomUboot/common/cmd_load.c:852-957 | a packet as a sender builds it, behind any noise, is accepted whole |
| `KermitSession.AnswerIsFrame` | CustomUboot/common/cmd_load.c:589-622 | acknowledgements and refusals are themselves packets that a receiver accepts, with the sequence number and type meant |
| `KermitAnswers.AnswerIsRead` | CustomUboot/common/cmd_load.c:958-969 | over every run of transmissions and whatever comes next: what is sent then is padding, one packet and the line end asked for; it reads as the refusal `N` of the last number read if the transmission was not accepted, and as the acknowledgement `Y` of its own number if it was, with parameters for a send-init packet |
| `KermitAnswers.LineIsNumbered` | CustomUboot/common/cmd_load.c:865-886 | on any line of bytes each transmission carries the number it was read with, or none |
| `KermitAnswers.OurParmsMean` | CustomUboot/common/cmd_load.c:763-793 | what the acknowledgement of a send-init packet announces: maximum length 94, one second, no padding, CR, quote `#`, block check 1, long packets; as many fields as the packet had below ten, else all |
| `KermitAnswers.AnnouncedIsTaken` | CustomUboot/common/cmd_load.c:735-762 | padding, line end and quote announced by the sender are taken over as meant, as far as its packet goes |
| `KermitAnswers.PacketIsRead` | CustomUboot/common/cmd_load.c:865-957 | a short packet written down in plain numbers, check included, is accepted with its fields |
| `KermitAnswers.LongPacketIsRead` | CustomUboot/common/cmd_load.c:897-929 | so is an extended-length packet, with its length to the base 95 and its header check |
| `KermitAnswers.PacketTypes` | CustomUboot/common/cmd_load.c:963-972 | `S` takes over parameters, `D` delivers, `B` ends the reception, and no other type changes anything |
| `KermitAnswers.CheckOfParts` | CustomUboot/common/cmd_load.c:579-587 | the block check is the lower six bits of the sum plus the two above them, modulo 64, as a printable character |
| `KermitAnswers.CheckAsBits` | CustomUboot/common/cmd_load.c:579-587 | shift and masks of the block check, read as arithmetic |
| `KermitAnswers.BitErrorIsDetected` | CustomUboot/common/cmd_load.c:951-957 | one wrong bit anywhere in a packet changes its block check |
| `KermitAnswers.RefusalOfPacketZero` | CustomUboot/common/cmd_load.c:611-622 | the refusal of packet 0, byte by byte |
| `KermitSession.RunDelivers` | CustomUboot/common/cmd_load.c:834-973 | over every sequence of garbled, rejected and accepted transmissions the live state is what the last transmission of each group of equal sequence numbers delivers, and the saved state is that without the open group |
| `KermitSession.DeliverAllDecodes` | CustomUboot/common/cmd_load.c:690-705 | what those transmissions deliver is the concatenation of their payloads, unquoted once |
| `KermitSession.FileArrives` | CustomUboot/common/cmd_load.c:800-975 | a quoted file arrives unchanged as long as the transmissions that remain carry it, however it was cut |
| `KermitSession.GarbledDropsGroup` | CustomUboot/common/cmd_load.c:880-886 | the assumption stated in the source is needed: a packet refused before its sequence byte drops the current group even if it was acknowledged |
| `KermitSession.SenderFinals` | CustomUboot/common/cmd_load.c:887-896 | for a sender that numbers packets modulo 64 and repeats each until it is acknowledged: after any number of packets, the data of each is there once, in order, but for those whose successor was first received garbled |
| `KermitSession.SenderPayloadExactly` | CustomUboot/common/cmd_load.c:880-896 | the data is complete exactly if every packet whose first transmission is refused before its number is preceded by one without data; a garbled start of the transmission, or behind the file header, does no harm |
| `KermitSession.KeptArrives` | CustomUboot/common/cmd_load.c:800-975 | what is delivered is the unquoted rest in any case |
| `KermitSession.SenderDelivers` | CustomUboot/common/cmd_load.c:800-975 | under that condition the file that such a sender quotes with the character it announced arrives unchanged |
| `KermitSession.SenderDeliversExactly` | CustomUboot/common/cmd_load.c:800-975 | and only under that condition, for every file without the one byte that is quoted although it need not be: the quote character with its eighth bit set |
| `KermitSession.EighthBitHidesLoss` | CustomUboot/common/cmd_load.c:690-705 | that byte can arrive although a data packet is lost |
| `KermitCodec.QuotedIsShortest` | CustomUboot/common/cmd_load.c:690-705 | of all texts of printable characters that stand for such a file, its quoted form is the shortest |
| `KermitSession.AcknowledgedDataLost` | CustomUboot/common/cmd_load.c:958-962 | a concrete run in which acknowledged data is lost this way |
| `KermitSession.AcknowledgedBytesLost` | CustomUboot/common/cmd_load.c:880-886 | the same for the bytes on the line, through the packet scanner |
| `KermitReceiver.Receiver.KDataSave` | CustomUboot/common/cmd_load.c:680-684 | the checkpoint is the current state |
| `KermitReceiver.Receiver.KDataRestore` | CustomUboot/common/cmd_load.c:685-689 | the current state is the checkpoint again |
| `KermitReceiver.Receiver.BinDataChar` | CustomUboot/common/cmd_load.c:656-664 | the byte is appended behind what was received; the saved part of memory keeps its contents |
| `KermitReceiver.Receiver.KDataChar` | CustomUboot/common/cmd_load.c:690-705 | one step of unquoting against the memory |
| `KermitReceiver.Receiver.HandleSendPacket` | CustomUboot/common/cmd_load.c:713-797 | takes over pad count, pad character, line end and quote as far as the packet goes, and answers with as many of the own parameters |
| `KermitReceiver.Receiver.SendAck` | CustomUboot/common/cmd_load.c:598-609 | sends padding, the packet with its block check, and the line end asked for |
| `KermitReceiver.Receiver.SendNack` | CustomUboot/common/cmd_load.c:611-622 | sends padding, the packet with its block check, and the line end asked for |
| `KermitReceiver.Receiver.SaveParm` | CustomUboot/common/cmd_load.c:940-946 | the parameter buffer keeps the first 19 characters of a packet of any length, never writing outside |
| `KermitReceiver.Receiver.CheckSequence` | CustomUboot/common/cmd_load.c:887-896 | a repeated sequence number rolls back, a new one takes a checkpoint |
| `KermitReceiver.Receiver.ReadData` | CustomUboot/common/cmd_load.c:930-957 | reads data, check and end character, acting on the data before the check is seen |
| `KermitReceiver.Receiver.ReadPacket` | CustomUboot/common/cmd_load.c:865-957 | reads what the packet format says; an accepted packet has its effect, for a refused one a rollback undoes everything |
| `KermitReceiver.Receiver.AnswerPacket` | CustomUboot/common/cmd_load.c:958-969 | refuses and rolls back, or acknowledges: one step of the session |
| `KermitReceiver.Receiver.KRecv` | CustomUboot/common/cmd_load.c:800-975 | for every input: the size returned and the memory from the start address on are what the last transmissions of the data packets deliver; 0 after an interrupt |
| `KermitReceiver.ReceiveFile` | CustomUboot/common/cmd_load.c:800-975 | from the bytes on the line to the bytes in memory: a file quoted with a legal character arrives, whatever was garbled, rejected or repeated in between |
| `KermitLine.SpoiledIsRejected` | CustomUboot/common/cmd_load.c:897-957 | a packet whose length and number arrive, and which then has a control character, another check, or another end, is refused with its number, and reading goes on right behind the damage |
| `KermitLine.PieceIsEvent` | CustomUboot/common/cmd_load.c:852-957 | noise and a broken, spoiled or whole packet are one transmission, whatever follows |
| `KermitLine.LineIsEvents` | CustomUboot/common/cmd_load.c:834-973 | a line of such pieces is read as their transmissions up to the end of the file |
| `KermitLine.ReceiveFromSender` | CustomUboot/common/cmd_load.c:800-975 | from a sender's packets, with noise and damage on the line, to memory: the file is there under the condition above, and, but for that one byte, only then |
| `SRecord.RecordDecodes` | CustomUboot/common/cmd_load.c:327-372 | each record decodes to the address and bytes it was made of, its bytes sum to 0xFF modulo 256, and its text with the final NUL fits the record buffer |
| `SRecord.RecordFields` | CustomUboot/common/cmd_load.c:327-372 | the printed record field by field: `S3`, length and address in upper-case hexadecimal, every data byte at its place, the line end |
| `SRecord.RecordCount` | CustomUboot/common/cmd_load.c:354-381 | records are cut every 16 bytes |
| `SRecord.HeaderRecord` | CustomUboot/common/cmd_load.c:327-327 | the header is an S0 record of two address bytes 0 whose bytes sum to 0xFF modulo 256 |
| `SRecord.EndRecord` | CustomUboot/common/cmd_load.c:329-329 | the end record is an S7 record of four address bytes 0 whose bytes sum to 0xFF modulo 256 |
| `SRecord.RecordsLoad` | CustomUboot/common/cmd_load.c:344-381 | all data records together load as one copy of the memory area, also across the end of the address space |
| `SRecord.CopiedExactly` | CustomUboot/common/cmd_load.c:332-385 | that copy defines exactly the count addresses asked for |
| `SRecord.UploadLoads` | CustomUboot/common/cmd_load.c:342-384 | header and end record change nothing about it |
| `SRecord.BuildRecord` | CustomUboot/common/cmd_load.c:356-372 | digits, length, address and checksum as collected make the record of these bytes |
| `SRecord.Collect` | CustomUboot/common/cmd_load.c:345-353 | one more byte in the digit buffer and in the checksum |
| `SRecord.SaveData` | CustomUboot/common/cmd_load.c:344-381 | sends exactly the data records of the area, of 16 bytes each but the last, or those before the interrupt |
| `SRecord.SaveSerial` | CustomUboot/common/cmd_load.c:332-385 | sends header, data records and end record, or stops with -1 at the record that the console interrupts |
| `MtdNumbers.MemsizeRoundTrip` | CustomUboot/common/cmd_jffs2.c:198-245 | `memsize_parse` undoes `memsize_format` for every 32-bit size |
| `MtdNumbers.SimpleStrtoul` | CustomUboot/common/cmd_jffs2.c:198-201 | the number read, modulo 2^32, and where it ends |
| `MtdNumbers.ParseMemsize` | CustomUboot/common/cmd_jffs2.c:198-221 | size with its suffix; shifting in steps with the excess dropped is one multiplication modulo 2^32 |
| `MtdRoundTrip.PartFields` | CustomUboot/common/cmd_jffs2.c:602-710 | a printed partition parses to its size, offset, name and flag, with the offset left open exactly if it is the implied one; one below 4096 bytes is refused |
| `MtdRoundTrip.PartsRoundTrip` | CustomUboot/common/cmd_jffs2.c:909-949 | a printed partition list parses to itself exactly if all sizes are at least 4096 and one that reads as "all remaining space" stands last |
| `MtdRoundTrip.DeviceRoundTrip` | CustomUboot/common/cmd_jffs2.c:867-992 | one device comes back, with its identifier, exactly if moreover no two of its partitions start at one offset |
| `MtdRoundTrip.RoundTrip` | CustomUboot/common/cmd_jffs2.c:1107-1224 | `parse_mtdparts` of the printed text rebuilds all devices, sizes, offsets, names and flags exactly if every partition has at least 4096 bytes, those of size 2^32-1 are the last of their devices, and no two of a device start at one offset |
| `MtdRoundTrip.EarlyFillUpIsLost` | CustomUboot/common/cmd_jffs2.c:663-669 | two valid partitions on a chip of 2^32-1 bytes that are printed but not read back |
| `MtdRoundTrip.SmallFillUpIsLost` | CustomUboot/common/cmd_jffs2.c:617-628 | all remaining space can be a partition of 2048 bytes, which is printed but not read back |
| `MtdRoundTrip.TiedAreMoved` | CustomUboot/common/cmd_jffs2.c:517-571 | two valid partitions with one offset do not come back in their order |
| `MtdSoundness.ValidatedExactly` | CustomUboot/common/cmd_jffs2.c:407-437 | what passes the check is non-empty, inside the chip without wrap-around, and aligned; and the other way round |
| `MtdWritten.NumberIsRead` | CustomUboot/common/cmd_jffs2.c:198-221 | every number written in decimal, octal or hexadecimal, in either case, with or without a unit in either case, is read as its value times the unit modulo 2^32 |
| `MtdWritten.DefinitionIsRead` | CustomUboot/common/cmd_jffs2.c:602-710 | a partition written in any way, with its size or `-`, an offset or none, a name or none, is accepted exactly if its size is at least 4096 and none follows one that reads as all remaining space; it is then read as written |
| `MtdWritten.DefinitionsAreRead` | CustomUboot/common/cmd_jffs2.c:909-949 | any written partition list is read as exactly the areas it means: each runs on behind the one before or starts where it says, lies in the chip, is aligned, and is not empty; or is refused |
| `MtdWritten.RestOfDevice` | CustomUboot/common/cmd_jffs2.c:617-620 | for every text that starts with `-`, every offset and all options: it fails, or gives one partition that ends where the device ends, exactly if that area passes the check |
| `MtdWritten.RestBehind` | CustomUboot/common/cmd_jffs2.c:617-620 | the same for `-` behind other definitions |
| `MtdWritten.RestOf4MiB` | CustomUboot/common/cmd_jffs2.c:617-620 | `256k,-` on a chip of 4 MiB gives 256 KiB and the other 0x3C0000 bytes |
| `MtdWritten.AlignedExactly` | CustomUboot/common/cmd_jffs2.c:322-397 | the check itself: whole erase blocks, or from the start of a sector to the start of another one or the end of the chip |
| `MtdWhole.FindIdIsFirst` | CustomUboot/common/cmd_jffs2.c:1037-1056 | the first device of a name, or none |
| `MtdWhole.TextIsRead` | CustomUboot/common/cmd_jffs2.c:1390-1437 | `mtdparts=` and any list of written devices: the devices it means, or an error and none, exactly if a name is unknown, a definition is refused, two partitions of a device start at 0, or a device comes twice |
| `MtdSoundness.FillUpReachesTheEnd` | CustomUboot/common/cmd_jffs2.c:409-410 | a partition of all remaining space ends where the chip ends |
| `MtdSorting.SortAddAllSound` | CustomUboot/common/cmd_jffs2.c:978-986 | sorting the parsed partitions in loses none and orders them by offset |
| `MtdSorting.SortAddIsInsert` | CustomUboot/common/cmd_jffs2.c:517-571 | a partition goes in front of the first that does not start below it; it is refused exactly if it and the first one start at 0 |
| `MtdSorting.SortAddAllRefuses` | CustomUboot/common/cmd_jffs2.c:517-571 | partitions can be sorted in exactly if at most one of them starts at 0 |
| `MtdSorting.SortAddAllExactly` | CustomUboot/common/cmd_jffs2.c:517-571 | different partitions come out of the sorting as they went in exactly if their offsets ascend strictly |
| `MtdSoundness.ParsedIsSound` | CustomUboot/common/cmd_jffs2.c:1390-1437 | whatever text is accepted: known devices, none twice, each with at least one partition, all checked, in order of offset, with printable names |
| `MtdSoundness.ParsePrintParse` | CustomUboot/common/cmd_jffs2.c:1107-1224 | printing what any text was parsed to and parsing that gives the same devices exactly under the condition of the round trip |
| `MtdParser.PartParse` | CustomUboot/common/cmd_jffs2.c:602-710 | the parser moving over the text computes the grammar: result, error and position |
| `MtdParser.ParsePartList` | CustomUboot/common/cmd_jffs2.c:909-949 | partitions up to the end of the device, each one validated; offsets run on |
| `MtdParser.PartSortAdd` | CustomUboot/common/cmd_jffs2.c:517-571 | inserts before the first partition that does not start below; refuses a second one at offset 0 |
| `MtdParser.DeviceParse` | CustomUboot/common/cmd_jffs2.c:867-992 | one device with its partitions sorted, or an error |
| `MtdParser.ParseMtdparts` | CustomUboot/common/cmd_jffs2.c:1390-1437 | all devices of the text, or an error and none |
| `MtdParser.PrintPart` | CustomUboot/common/cmd_jffs2.c:1144-1194 | the text of one partition if it fits in the room left |
| `MtdParser.GenerateMtdparts` | CustomUboot/common/cmd_jffs2.c:1107-1224 | the whole text, or an error exactly if the text behind the prefix is longer than the buffer less one |
| `MtdParser.SaveAndReload` | CustomUboot/common/cmd_jffs2.c:1107-1224 | what was saved reads back as the same devices exactly if the text fits and the condition of the round trip holds |
| `MtdList.CurrentAfterInsert` | CustomUboot/common/cmd_jffs2.c:551-564 | an insertion in front of the current partition moves its index up by one, any other leaves it |
| `MtdList.CurrentAfterRemove` | CustomUboot/common/cmd_jffs2.c:463-468 | after a deletion the adjusted index names the partition it named, exactly unless the deleted one starts at the same offset and stands behind it |
| `MtdList.AllPartsAt` | CustomUboot/common/cmd_jffs2.c:263-273 | a position in the concatenation of all lists |
| `MtdList.Manager.PositionNamesCurrent` | CustomUboot/common/cmd_jffs2.c:252-285 | `mtddevnum` is the position of the current partition in the concatenation of all device lists |
| `MtdList.Manager.IndexPartitions` | CustomUboot/common/cmd_jffs2.c:252-285 | computes that position, modulo 2^16, or none without a current device |
| `MtdList.Manager.PartSortAdd` | CustomUboot/common/cmd_jffs2.c:517-571 | the list stays sorted and counted, and the current index in range; it names another partition exactly if it has to move up from 255 |
| `MtdList.RemovedIndex` | CustomUboot/common/cmd_jffs2.c:463-468 | the index after a deletion is in range exactly unless the deleted partition ties with a current partition 0, in lists of up to 256; then it is 255 |
| `MtdList.InsertedIndex` | CustomUboot/common/cmd_jffs2.c:551-564 | the index after an insertion is in range, and names the same partition exactly unless it moves up from 255 and wraps around |
| `MtdList.Manager.PartDel` | CustomUboot/common/cmd_jffs2.c:446-486 | the list stays sorted and counted; the current index is reset if its partition goes, else still names it exactly if the two do not tie, and leaves its range exactly if that partition is number 0; the last partition takes the device along |
| `MtdList.Manager.DeviceDel` | CustomUboot/common/cmd_jffs2.c:788-810 | the device goes; if it was current, the first partition of the first device becomes current |
| `MtdList.Manager.DeviceAdd` | CustomUboot/common/cmd_jffs2.c:840-856 | the device is appended; the first one becomes current |
| `MtdList.Manager.ChangePart` | CustomUboot/common/cmd_jffs2.c:1979-2005 | an existing partition becomes current |
| `MtdList.Manager.Run` | CustomUboot/common/cmd_jffs2.c:446-571 | over every run of partition and device additions and deletions and changes of the current partition, ties and full lists included: lists sorted and counted, nothing twice, `mtddevnum` computed from the index |
| `MtdList.Manager.RunChecked` | CustomUboot/common/cmd_jffs2.c:446-571 | over runs without equal offsets and of lists below 256: the index is in range, `mtddevnum` is the global number of the current partition, and that is the same one unless a command deletes it or its device or changes to another |
| `MtdList.TieLeavesRange` | CustomUboot/common/cmd_jffs2.c:463-468 | a reachable list of two partitions at one offset: deleting the second while the first is current leaves the index at 255 |
| `EnvEntries.SetIsMapUpdate` | CustomUboot/common/cmd_nvedit.c:156-325 | setting a variable is a map update: the name gets the joined arguments or goes, also on overflow; every other name keeps its value |
| `EnvCalls.CallByName` | CustomUboot/common/cmd_nvedit.c:156-325 | for all names without an equals sign, over all environments: unless the value is kept, the variable has the joined arguments afterwards if they fit, else none, and 0 is returned exactly if they fit or there are none; it is kept, with code 1, exactly for a stored `serial#` or `ethaddr`, a stored console name without arguments or without its device, and a stored `baudrate` that is not supported |
| `EnvCalls.PlainNames` | CustomUboot/common/cmd_nvedit.c:156-325 | every name other than these six can be changed and deleted |
| `EnvCalls.JoinIsSpaced` | CustomUboot/common/cmd_nvedit.c:318-323 | the arguments with single blanks between them |
| `EnvCalls.LookupIsEntry` | CustomUboot/common/cmd_nvedit.c:594-603 | a variable has a value exactly if there is an entry of that text |
| `EnvCalls.SetThenGet` | CustomUboot/common/cmd_nvedit.c:156-325 | `setenv` and then `getenv` on the stored bytes: the value is there, by its plain name |
| `EnvEntries.SetIsWellFormed` | CustomUboot/common/cmd_nvedit.c:156-325 | after every call entries have an equals sign and no name occurs twice |
| `EnvEntries.WriteOnce` | CustomUboot/README:2585-2587 | over every run of calls, overflowing ones included, `serial#` and `ethaddr` keep their value once they have one |
| `EnvEntries.WriteOnceExactly` | CustomUboot/common/cmd_nvedit.c:185-201 | they are protected from exactly the names that do not spell them with an equals sign behind |
| `EnvEntries.DisguiseDeletes` | CustomUboot/common/cmd_nvedit.c:594-603 | a name such as `serial#=x` deletes the variable from any environment |
| `EnvStore.ImageAt` | CustomUboot/common/cmd_nvedit.c:175-180 | the stored bytes split around each entry |
| `EnvStore.DoubleNulIsEnd` | CustomUboot/common/cmd_nvedit.c:297-298 | two NULs meet only at the end of the stored environment |
| `EnvStore.ImageIsUnique` | CustomUboot/common/cmd_nvedit.c:175-180 | a memory holds the image of one list of entries only |
| `EnvStore.Store.EnvMatch` | CustomUboot/common/cmd_nvedit.c:594-603 | compares up to the first equals sign of either text and returns where the value starts |
| `EnvStore.Store.Search` | CustomUboot/common/cmd_nvedit.c:174-180 | finds the entry of a name, its end and its value, or the end of the environment |
| `EnvStore.Store.Getenv` | CustomUboot/common/cmd_nvedit.c:487-507 | the address of the value that the map gives to the name, or none |
| `EnvStore.Store.Delete` | CustomUboot/common/cmd_nvedit.c:259-273 | shifting the bytes leaves the image of the other entries, also for the only or the last one |
| `EnvStore.Store.FindEnd` | CustomUboot/common/cmd_nvedit.c:297-300 | where the next entry goes |
| `EnvStore.Store.Append` | CustomUboot/common/cmd_nvedit.c:314-325 | writes name, arguments and the closing NULs, and nothing in front of them |
| `EnvStore.Store.AddEntry` | CustomUboot/common/cmd_nvedit.c:294-325 | the entry is added exactly if the image still fits |
| `EnvStore.Store.Refuse` | CustomUboot/common/cmd_nvedit.c:185-257 | which variables may not be overwritten |
| `EnvStore.Store.Setenv` | CustomUboot/common/cmd_nvedit.c:156-325 | the array after the call is the image of the entries after the map update, never longer than the array; the return code tells |
| `MemTest.ToWordInjective` | CustomUboot/common/cmd_mem.c:914-916 | the words written to different offsets differ |
| `MemTest.ValueOfWord` | CustomUboot/common/cmd_mem.c:914-916 | a word stands for its number |
| `MemTest.PatternsAre` | CustomUboot/common/cmd_mem.c:848-849 | the two patterns are 0xaaaaaaaa and 0x55555555 |
| `MemTest.WalkExactly` | CustomUboot/common/cmd_mem.c:858-858 | the tested offsets are 1, 2, 4, ... as long as the number of words is a multiple of twice the offset |
| `MemTest.FaultFreePasses` | CustomUboot/common/cmd_mem.c:911-947 | fault-free memory passes the three passes |
| `MemTest.PassingHasNoStuckBit` | CustomUboot/common/cmd_mem.c:921-947 | a word that passes both checks lies in a cell without stuck bit |
| `MemTest.PassingHasNoAlias` | CustomUboot/common/cmd_mem.c:911-932 | a word that passes shares its cell with no later one |
| `MemTest.PassesExactlyIfFaultFree` | CustomUboot/common/cmd_mem.c:897-947 | fill, check, invert, check report nothing exactly if no two words share a cell and no bit of theirs is stuck, both kinds of fault together |
| `MemTest.AddressPassesExactly` | CustomUboot/common/cmd_mem.c:816-895 | the walking-ones test passes exactly if every tested power of two takes the pattern, and each that shares its cell with another tested offset is stuck at the pattern in all 32 bits |
| `MemTest.PassingIsUnaliased` | CustomUboot/common/cmd_mem.c:816-895 | one healthy or differently stuck bit per tested cell is enough: then a passing test means that offset 0 and the tested powers are pairwise unaliased |
| `MemTest.PassingMeansUnaliasedExactly` | CustomUboot/common/cmd_mem.c:816-895 | passing means unaliased, for every wiring of an even number of words to these cells, exactly if no cell is stuck at the pattern as a whole |
| `MemTest.StuckCellHidesAliases` | CustomUboot/common/cmd_mem.c:816-895 | with such a cell there is a wiring of any even number of words that passes although all tested offsets are aliased |
| `MemTest.HealthyPassesExactly` | CustomUboot/common/cmd_mem.c:816-895 | where the tested cells have no stuck bit the test passes exactly if there is no alias |
| `MemTest.OddSizeTestsNothing` | CustomUboot/common/cmd_mem.c:843-855 | with an odd number of words the address mask is even, and no offset is tested |
| `MemTest.StuckCellHidesAlias` | CustomUboot/common/cmd_mem.c:816-895 | a stuck cell can hide an aliased address line from that test |
| `MemTest.Memory.Fill` | CustomUboot/common/cmd_mem.c:911-916 | the counting pattern is written at every offset in turn |
| `MemTest.Memory.CheckPass` | CustomUboot/common/cmd_mem.c:918-947 | both checking passes: true exactly if every word reads as wanted just before its turn, and then the next words are written |
| `MemTest.Memory.CheckOthers` | CustomUboot/common/cmd_mem.c:868-893 | true exactly if all other tested offsets still read as the pattern |
| `MemTest.Memory.AddressTest` | CustomUboot/common/cmd_mem.c:847-895 | true exactly if no offset test fails |
| `MemTest.Memory.DeviceTest` | CustomUboot/common/cmd_mem.c:909-947 | true exactly for fault-free memory, which ends zeroed |
| `MemTest.Memory.Mtest` | CustomUboot/common/cmd_mem.c:847-947 | address test and device test together report nothing exactly for fault-free memory, which ends zeroed |
| `Flash.ChainCovers` | CustomUboot/common/cmd_flash.c:214-276 | sectors selected bank by bank, each from where the one before ended, cover one contiguous interval |
| `Flash.SectorsFillBank` | CustomUboot/common/cmd_flash.c:225-232 | the sectors of a bank fill exactly its bytes |
| `Flash.ScanBank` | CustomUboot/common/cmd_flash.c:229-245 | the sector that starts at the range's start, and the one that ends at its end, if there are such |
| `Flash.PlanBank` | CustomUboot/common/cmd_flash.c:221-275 | one bank: what is selected and where the range goes on, or which error |
| `Flash.FillSectRanges` | CustomUboot/common/cmd_flash.c:199-279 | without an error the selected sectors cover exactly one interval that starts at the first address and stays within the range; over banks that map the range in ascending order they are exactly the range, exactly if it starts and ends at sector boundaries; otherwise an error is returned exactly unless the range starts with the last byte of a bank and its end is misplaced, too |
| `Flash.ErrorIsReal` | CustomUboot/common/cmd_flash.c:246-275 | over such banks an error means that the range does not start, or does not end, at a sector boundary, and is not the unreported case |
| `Flash.NothingReported` | CustomUboot/common/cmd_flash.c:266-269 | two banks and a range for which nothing is selected and 0 returned |
| `Flash.RoundUp` | CustomUboot/common/cmd_flash.c:147-192 | the last address of the sector that holds the last byte; an error exactly if no sector holds it |
| `Flash.RoundedEndIsBoundary` | CustomUboot/common/cmd_flash.c:155-183 | a rounded end is a sector boundary of every bank that holds it, and less than a sector above the end asked for |
| `Flash.SelectedExactly` | CustomUboot/common/cmd_flash.c:199-279 | in banks that do not overlap, the selected sectors are exactly those that start in the interval |
| `Flash.Chips.ProtectSectors` | CustomUboot/common/cmd_flash.c:648-656 | sets the flag of the given sectors of one bank and of no other |
| `Flash.Chips.SectProtect` | CustomUboot/common/cmd_flash.c:620-658 | exactly the selected sectors of all banks get the flag; an error, or an empty selection, changes none |
| `Flash.Chips.ProtectLength` | CustomUboot/common/cmd_flash.c:147-193 | `start +length`: exactly the sectors that start in the rounded range change; a mapped range that starts at a sector cannot fail |
| `Idme.VarsAreDisjoint` | CustomUboot/common/cmd_idme.c:112-178 | no two variables share a byte, and none reaches the signature or its bitmap |
| `Idme.SignedExactly` | CustomUboot/common/cmd_idme.c:623-642 | the marks as text: `beefdeed` at the start, `adbdefg12345` as the signature |
| `Idme.ChosenIsBit` | CustomUboot/common/cmd_idme.c:646-646 | variable i is chosen exactly if bit i modulo 8 of byte i / 8 of the bitmap is set |
| `Idme.StoredBitDecides` | CustomUboot/common/cmd_idme.c:645-650 | from the stored bytes: each variable arrives if its bit of its byte of the bitmap is set, and stays if it is not |
| `Idme.SingleBit` | CustomUboot/common/cmd_idme.c:645-650 | a bitmap with the single bit i changes the bytes of variable i and nothing else |
| `Idme.OnlyTheSerial` | CustomUboot/common/cmd_idme.c:645-650 | bitmap bytes 4, 0, 0, 0: the serial arrives and nothing else |
| `Idme.MergeByte` | CustomUboot/common/cmd_idme.c:645-650 | the merge takes the bytes of the chosen variables from the user area and all others from the boot area |
| `Idme.MergedVariable` | CustomUboot/common/cmd_idme.c:645-650 | whole variables: a chosen one arrives, another one stays |
| `Idme.MergeAgain` | CustomUboot/common/cmd_idme.c:645-650 | merging into a partly merged boot area gives what the first merge gave |
| `Idme.ClearedByte` | CustomUboot/common/cmd_idme.c:651-653 | clearing zeroes the 16 bytes of signature and bitmap and no others |
| `Idme.UpdateKeepsRecoverable` | CustomUboot/common/cmd_idme.c:641-663 | a run cut off after any block write leaves a state from which the update can be repeated |
| `Idme.CrashRecovery` | CustomUboot/common/cmd_idme.c:598-666 | however often the update was cut off, a run that is not leaves the boot area as if it had been the only one |
| `Idme.CompletedIsFinal` | CustomUboot/common/cmd_idme.c:598-666 | after a completed run further runs change nothing |
| `Idme.UserIsClearedExactly` | CustomUboot/common/cmd_idme.c:651-662 | over all sequences of cut runs the user area ends cleared exactly if the first run that reached it wrote at least two of its blocks; otherwise the bitmap stays |
| `Idme.UserAfter` | CustomUboot/common/cmd_idme.c:651-662 | what the user area holds after any runs: the blocks of the first run that got to it |
| `Idme.ClearedFromTwoBlocks` | CustomUboot/common/cmd_idme.c:551-595 | a partly written user area is cleared exactly from two blocks on |
| `Idme.BitmapMaySurvive` | CustomUboot/common/cmd_idme.c:651-662 | cut off after the first block of the user area, the bitmap stays for good, whatever runs follow |
| `Idme.Emmc.IdmeRead` | CustomUboot/common/cmd_idme.c:253-300 | the whole area, or an error if one block cannot be read |
| `Idme.Emmc.IdmeWrite` | CustomUboot/common/cmd_idme.c:551-595 | as many blocks as the card takes, in order; an error exactly if that is not all |
| `Idme.Emmc.MergeInto` | CustomUboot/common/cmd_idme.c:645-650 | the loop computes the merge |
| `Idme.Emmc.ClearSig` | CustomUboot/common/cmd_idme.c:651-653 | signature and bitmap are zero, every other byte is kept |
| `Idme.Emmc.UpdateVarsEx` | CustomUboot/common/cmd_idme.c:598-666 | one run against the two areas, with all its error returns |
| `Fdc.ChsOfBlock` | CustomUboot/common/cmd_fdc.c:305-313 | every block has a track, head and sector (1 to the sectors per side), from which it can be computed back |
| `Fdc.ChsIsDivMod` | CustomUboot/common/cmd_fdc.c:309-313 | the triple is that of the divisions and remainders in the source |
| `Fdc.CommandFields` | CustomUboot/common/cmd_fdc.c:309-330 | the command names the drive, has the head-select bit set exactly for head 1, and holds head, track modulo 256, sector from 1 and last sector of the side of its block |
| `Fdc.BlockOfChs` | CustomUboot/common/cmd_fdc.c:305-313 | every such triple is that of one block |
| `Fdc.SameSide` | CustomUboot/common/cmd_fdc.c:510-516 | blocks up to the end of a side differ in the sector only |
| `Fdc.PhysicalIsRemainder` | CustomUboot/common/cmd_fdc.c:325-325 | the controller reads the block asked for exactly if its track number fits the register |
| `Fdc.TrackWraps` | CustomUboot/common/cmd_fdc.c:325-325 | on the 1.44 MB format block 9216 reads as block 0 |
| `Fdc.AllGoodMeansEach` | CustomUboot/common/cmd_fdc.c:518-526 | no read command spans two sides, and each is issued on its own track |
| `Fdc.CleanTransfer` | CustomUboot/common/cmd_fdc.c:518-566 | a transfer without an error status delivers exactly the blocks of its command |
| `Fdc.GoodIsClean` | CustomUboot/common/cmd_fdc.c:518-566 | on a disk that holds the blocks, below the block at which the track register wraps, a command without an error status is such a transfer |
| `Fdc.HoldsAsked` | CustomUboot/common/cmd_fdc.c:325-325 | below the block at which the track register wraps these are the blocks `disk[blnr + i]` asked for |
| `Fdc.Controller.Attempt` | CustomUboot/common/cmd_fdc.c:518-566 | a completed transfer delivers its sectors, right or wrong; they are the requested blocks exactly if it is not counted as wrong, and it is that only with an error status |
| `Fdc.Controller.ReadSide` | CustomUboot/common/cmd_fdc.c:518-566 | two-level retries for one side: success exactly below 25 broken transfers with no command refused, and then the right data exactly if no completed transfer was wrong |
| `Fdc.Controller.AdvanceSide` | CustomUboot/common/cmd_fdc.c:567-593 | seek, read and advance, with the same condition for the data |
| `Fdc.Controller.ReadSides` | CustomUboot/common/cmd_fdc.c:510-593 | over all sides: what `blnr` has advanced over is in the buffer exactly if no completed transfer was wrong |
| `Fdc.Controller.ReadData` | CustomUboot/common/cmd_fdc.c:482-598 | for any answers of the drive: the call succeeds exactly with fewer than 25 broken transfers and no refused command or seek; the buffer then holds exactly the blocks asked for if and only if no completed transfer was wrong, and none is wrong without an error status in its result bytes, which the source does not look at; with a drive that accepts every command, finds every track and reports no error, blocks on the disk below that wrap are delivered: TRUE, and exactly these blocks |
| `Fdc.ErrorIsTaken` | CustomUboot/common/cmd_fdc.c:566-569 | for any disk, block and data delivered with an error status the call returns TRUE with that data; the one completed read is counted as reporting an error, and as wrong exactly if the data is not the block asked for |
| `Eeprom.CellIsLinear` | CustomUboot/common/cmd_eeprom.c:223-226 | a burst that fits addresses consecutive cells in a device that counts up within a page |
| `Eeprom.PageInBlock` | CustomUboot/common/cmd_eeprom.c:264-271 | a page that divides the block keeps bursts within the block |
| `Eeprom.EachFits` | CustomUboot/common/cmd_eeprom.c:223-278 | no burst crosses a page or a 256-byte block or exceeds the bus limit |
| `Eeprom.FitsExactly` | CustomUboot/common/cmd_eeprom.c:255-278 | a burst fits exactly if it keeps the limit and its first and last byte lie in one page and one block |
| `Eeprom.Device.BurstLength` | CustomUboot/common/cmd_eeprom.c:255-278 | the next burst is as long as one can be, and never empty: the loops end |
| `Eeprom.Device.Write` | CustomUboot/common/cmd_eeprom.c:206-380 | without a bus failure the memory is updated as one array assignment; with failures the return code is 1, and nothing outside the range changes; a range whose end wraps around at 32 bits is not transferred, without a single bus access, and the code is 0 |
| `Eeprom.LastBytesAreLost` | CustomUboot/common/cmd_eeprom.c:206-222 | data that ends at the end of the address space: code 0, nothing written, on a part of any size |
| `Eeprom.Device.Read` | CustomUboot/common/cmd_eeprom.c:132-195 | without a bus failure the buffer gets exactly the bytes of the range; a range whose end wraps around leaves it as it was, and the code is 0 |
| `Eeprom.Device.WriteThenRead` | CustomUboot/common/cmd_eeprom.c:132-380 | what was written reads back |
| `Bedbug.OperandSurvives` | CustomUboot/common/bedbug.c:375-402 | every operand extracted from an assembled instruction is the one put in, if the written fields are disjoint and clear of the opcode |
| `Bedbug.AddiIsGood` | CustomUboot/include/bedbug/tables.h:81-82 | the fields of `addi` are such |
| `Bedbug.ExtractIsShiftAndMask` | CustomUboot/common/bedbug.c:389-393 | what is extracted is the instruction shifted right and masked |
| `Bedbug.OpcodeSurvives` | CustomUboot/common/bedbug.c:428-439 | under its mask the instruction is the opcode |
| `Bedbug.WordsInOrder` | CustomUboot/common/bedbug.c:800-830 | the words of the input belong to the fields that are not silent, in their order |
| `Bedbug.BranchTarget` | CustomUboot/common/bedbug.c:263-273 | a target survives encoding and sign-extended decoding exactly if it is a whole number of words away and its distance fits the field |
| `Bedbug.AddressSurvives` | CustomUboot/common/bedbug.c:867-881 | the disassembler shows an address operand as it was written exactly under that condition, relative or absolute |
| `Bedbug.DistanceIsTwosComplement` | CustomUboot/common/bedbug.c:870-880 | in the field stands the number of words in two's complement |
| `Bedbug.NumberOperand` | CustomUboot/common/bedbug.c:915-919 | any number is taken, and is in the field as it is exactly if it fits |
| `Bedbug.SpecialSurvives` | CustomUboot/common/bedbug.c:899-913 | a special or time base register is refused exactly if the ten bits of its number are 0, which stands for an unknown one; else the disassembler gets these ten bits back |
| `Bedbug.RegisterSurvives` | CustomUboot/common/bedbug.c:883-897 | a register can be written in three ways, in both cases; it is refused exactly above 31, and its field holds its number |
| `Bedbug.NumberSurvives` | CustomUboot/common/bedbug.c:915-919 | a number survives its field exactly if it fits it |
| `Bedbug.FindOpcodeByName` | CustomUboot/common/bedbug.c:460-474 | the first entry of that name, or none |
| `Bedbug.AsmOperands` | CustomUboot/common/bedbug.c:797-843 | the opcode with all operands put in, or the first error |
| `Bedbug.Asm` | CustomUboot/common/bedbug.c:755-843 | the instruction, or which error; no input gives neither |
| `Bedbug.GetOperandValue` | CustomUboot/common/bedbug.c:375-402 | the value of an operand that the instruction has |
| `Bedbug.FindOpcode` | CustomUboot/common/bedbug.c:419-442 | binary search: what is found matches under its mask; if the table is in order for the instruction, none is found only if none matches |
| `Bedbug.AscendingIsOrdered` | CustomUboot/common/bedbug.c:419-442 | a table of ascending opcodes under one mask is in order for every instruction |
| `Bedbug.AsmThenFind` | CustomUboot/common/bedbug.c:755-843 | an assembled instruction holds every operand as written, and its own entry is found for it if no other matches and the table is in order |
| `Bedbug.SwapIsInvolution` | CustomUboot/common/bedbug.c:500-503 | swapping the halves of an SPR number twice gives the number back |
| `Fastboot.Loader.Download` | CustomUboot/common/cmd_fastboot.c:1202-1233 | a download starts exactly if its size is positive and fits the transfer buffer |
| `Fastboot.Loader.ResetHandler` | CustomUboot/common/cmd_fastboot.c:286-293 | a download under way is given up |
| `Fastboot.Loader.RxData` | CustomUboot/common/cmd_fastboot.c:768-867 | a packet adds its bytes up to the announced size and no more; one status is sent when it is complete |
| `Fastboot.Loader.RxDownload` | CustomUboot/common/cmd_fastboot.c:768-867 | for any split into packets the buffer ends as the first bytes of the stream, and exactly one status is sent |
| `Fastboot.Loader.WriteToPtnEmmc` | CustomUboot/common/cmd_fastboot.c:699-758 | the chunk is written at its sector, or nothing is |
| `Fastboot.Loader.Multiflash` | CustomUboot/common/cmd_fastboot.c:1412-1463 | a chunk is written at the current offset, which then advances; a failed one leaves disk and offset, and every failure has its own answer |
| `Fastboot.ChunkLandsBehind` | CustomUboot/common/cmd_fastboot.c:746-747 | a chunk lands behind the one before exactly if a whole number of sectors came before |
| `Fastboot.ChunksAreContiguous` | CustomUboot/common/cmd_fastboot.c:1439-1454 | chunks of whole sectors (but the last) land one behind the other |
| `Fastboot.AllInPlaceExactly` | CustomUboot/common/cmd_fastboot.c:1439-1454 | over a whole image, all chunks land in their places exactly if all but the last are whole sectors |
| `Fastboot.NextChunkOverwrites` | CustomUboot/common/cmd_fastboot.c:746-747 | a chunk behind a broken sector overwrites it |
| `Fastboot.Loader.FlashImage` | CustomUboot/common/cmd_fastboot.c:1410-1463 | for any answers of the card and chunks sent again until they are taken: as many chunks as the answers allow are on the disk, one behind the other inside the partition, and nothing else is |
| `Fastboot.Loader.TryNext` | CustomUboot/common/cmd_fastboot.c:1410-1463 | one attempt: the chunk is added, or disk and offset stay for the next one |
| `Fastboot.AllFlashed` | CustomUboot/common/cmd_fastboot.c:1439-1454 | a card that takes everything takes the whole image in as many attempts as there are chunks |
| `Fastboot.FlashedFromInit` | CustomUboot/common/cmd_fastboot.c:699-758 | a card that never fails to write takes an image from the first attempt on at which it is initialised; chunks behind others need no initialisation |
| `Bootm.LayoutIsSound` | CustomUboot/common/cmd_bootm.c:628-636 | with all differences taken modulo 2^32 the areas do not overlap, the RAM disk starts on a page and lies below command line and stack, or high and below stack and limit, exactly if its length fits below the place chosen; a RAM disk beyond the reach of early Linux is included if it goes high |
| `Bootm.ReservedIsTight` | CustomUboot/common/cmd_bootm.c:628-636 | command line and board information lie no lower than they have to, up to 16 bytes |
| `Bootm.GoesHighExactly` | CustomUboot/common/cmd_bootm.c:823-831 | the RAM disk goes high exactly if there is a page above the other areas from which it ends below stack and limit |
| `Bootm.RamdiskIsTight` | CustomUboot/common/cmd_bootm.c:799-832 | it starts on the last such page, else on the last page from which it ends below the board information |
| `Bootm.LargeRamdiskGoesHigh` | CustomUboot/common/cmd_bootm.c:807-832 | on a 64 MiB board with 8 MiB reach a 16 MiB RAM disk goes high, and the layout is sound |
| `Bootm.LimitBelowLengthWraps` | CustomUboot/common/cmd_bootm.c:823-831 | a limit below the length wraps around: the RAM disk is sent to the top of the address space |
| `Bootm.PlaceAreas` | CustomUboot/common/cmd_bootm.c:799-832 | the addresses computed step by step are that layout |
| `Bootm.LimitIsKeptExactly` | CustomUboot/README:2494-2507 | a RAM disk that fits keeps to the limit of `initrd_high` exactly if it is placed high, none is asked for, or the low place is not above the limit |
| `Bootm.LogBufferLimitIsNone` | CustomUboot/common/cmd_bootm.c:606-612 | with a log buffer above the stack the changed limit acts as none: the RAM disk goes where it would go without a limit, and ends below the buffer |
| `Bootm.LogBufferOverridesExactly` | CustomUboot/common/cmd_bootm.c:606-612 | exactly when a limit, or the wish to load low, is still respected then |
| `Bootm.LimitsAreOverridden` | CustomUboot/README:2494-2509 | one board on which "do not load high" and a limit of 12 MiB are kept without a log buffer and overridden with one |
| `Bootm.SecondFile` | CustomUboot/common/cmd_bootm.c:763-780 | the offset and length taken for the second file of an image |
| `Bootm.SecondFileIsThere` | CustomUboot/README:3046-3051 | at that offset are exactly the second file's bytes, for any number of files and any padding |
| `Bootm.CopyIsRightExactly` | CustomUboot/common/cmd_bootm.c:841-848 | the copy in chunks moves the image whatever memory holds, exactly if the target does not lie above the source and overlap it with more than one chunk to copy |
| `Bootm.OutsideTarget` | CustomUboot/common/cmd_bootm.c:841-848 | nothing outside the target is written |
| `Bootm.OverrunCopies` | CustomUboot/common/cmd_bootm.c:841-848 | which byte goes wrong when it does |
| `Bootm.CopyRamdisk` | CustomUboot/common/cmd_bootm.c:837-848 | the loop is the copy in chunks |
| `Bootm.SecondFileInMemory` | CustomUboot/common/cmd_bootm.c:763-788 | in an image in memory the computed address and length delimit the second file |
| `Bootm.CopySecondFile` | CustomUboot/common/cmd_bootm.c:763-848 | found and copied: the target holds exactly the second file and nothing else changes, unless the copy overruns its source |
| `Bootm.Memmove` | CustomUboot/lib_generic/string.c:469-488 | going up or down, a block moves right for any overlap |
| `CircularBuffer.QueueIsSuffix` | CustomUboot/common/circbuf.c:54-110 | after any interleaving of pushes and pops the queue holds the newest bytes, and what was pushed is what was popped, dropped or is still there |
| `CircularBuffer.FifoUnlessDropped` | CustomUboot/common/circbuf.c:54-110 | first in, first out, exactly if nothing was dropped |
| `CircularBuffer.Circbuf.constructor` | CustomUboot/common/circbuf.c:27-41 | an empty buffer of the given size |
| `CircularBuffer.Circbuf.Push` | CustomUboot/common/circbuf.c:81-110 | all bytes are taken; the oldest ones make room |
| `CircularBuffer.Circbuf.Pop` | CustomUboot/common/circbuf.c:54-79 | the oldest bytes come out, as many as asked for, or all if there are not so many; the others stay |
| `CircularBuffer.Circbuf.RunAll` | CustomUboot/common/circbuf.c:54-110 | any interleaving of pushes and pops on the buffer computes the run of which the two theorems speak |
| `LogBuffer.AnnotatedIsTagged` | CustomUboot/common/cmd_log.c:225-261 | every line of the stream starts with its level, also when lines are split across calls |
| `LogBuffer.LineIsLogged` | CustomUboot/common/cmd_log.c:227-255 | a line is stored as it is if one is open, or if it has its own level, which is its level then; otherwise `<4>` is put in front, and its level is 4 |
| `LogBuffer.SplitAtLine` | CustomUboot/common/cmd_log.c:225-261 | text that ends a line can be logged in a call of its own without difference |
| `LogBuffer.StartOfAnnotated` | CustomUboot/common/cmd_log.c:227-241 | the text logged next starts with a level exactly if no line is open, or it brings one itself |
| `LogBuffer.TaggedAfterReset` | CustomUboot/common/cmd_log.c:185-189 | after a reset every line has its level exactly if no line was open, or the rest of that line looks as if it had one |
| `LogBuffer.SlotIsWrap` | CustomUboot/common/cmd_log.c:244-248 | the masked index goes around the ring, also when the sum of start and size wraps around at 32 bits |
| `LogBuffer.RingTakes` | CustomUboot/common/cmd_log.c:244-248 | one more character: the ring holds the newest 16384 characters |
| `LogBuffer.Log.TakeLevel` | CustomUboot/common/cmd_log.c:227-241 | the level of a line: its own tag, or a default tag written in front |
| `LogBuffer.Log.PutLine` | CustomUboot/common/cmd_log.c:242-255 | logs up to the line feed or the end |
| `LogBuffer.Log.Reset` | CustomUboot/common/cmd_log.c:185-189 | an empty log; the open line stays open |
| `LogBuffer.Log.Printk` | CustomUboot/common/cmd_log.c:215-263 | the ring holds the newest characters of the stream with levels, which grows by the annotated text |

## Left out

- Serial, USB, eMMC, I2C and floppy registers, delays, time-outs, the watchdog,
  echo and message texts. A line is a sequence of bytes, a device an array, and
  its answers are inputs.
- KermitReceiver.Receiver.KRecv: memory is a map without an upper end, so an
  image that runs into the loader itself is not modelled, nor are the OS Open
  header mode and the counters beside the data pointer.
- KermitReceiver.Receiver.Getc: a silent line ends the model's run; the source
  waits.
- MtdRoundTrip.RoundTrip: generated partition names are one value (`None`), which
  the printer leaves out; their text is not modelled. Lists in which two partitions
  are the same in size, offset, name and flag are outside.
- MtdWhole.TextIsRead: a `;` behind the last device, which is accepted, too.
- MtdSoundness.ParsePrintParse: leaves out texts that name such a partition twice.
- KermitLine.ReceiveFromSender: the damaged packets are short ones; extended-length
  packets and damage in their headers are covered by the scanner's own theorems.
- MtdParser.GenerateMtdparts: does not claim that the text fits the buffer, because
  the source does not charge the prefix to the room left.
- MtdParser.PartParse: partitions and devices are values here, not list nodes;
  allocation failures are not modelled.
- MtdList.Manager.IndexPartitions: the variable `mtddevname` and the saving of the
  current partition in the environment.
- MtdList.Manager.PartDel: freeing of the list nodes, and the saving of the text
  after a deletion.
- MtdList.Manager.Run: lists stay below 65535 partitions, where `num_parts` would
  wrap around.
- MtdList.Manager.RunChecked: leaves out additions at a taken offset or to a device
  with 255 partitions, for which `Run` and `RemovedIndex` say what holds.
- EnvStore.Store.Setenv: console and baud rate answers are inputs; the Ethernet
  address and boot variables that are updated beside the array are not modelled,
  nor arguments that point into the array. CONFIG_ENV_OVERWRITE and
  CONFIG_OVERWRITE_ETHADDR_ONCE are taken as not defined.
- EnvStore.Store.Getenv: the bound inside the walk, which a well-formed array never
  reaches. `getenv_r`, whose end is inconsistent, is out.
- MemTest.Memory.Mtest: one iteration, without the data line test before it, which
  only adds reports and reads a location outside the range.
- Flash.Chips.SectProtect: flags in memory, not protection by the chip itself.
  Erasing takes the same ranges and is left out, as are bank and sector
  abbreviations.
- Flash.RoundUp: the numbers of the range as already read from their text.
- Flash.FillSectRanges: a bank does not end at the top of the address space, where
  its end plus one would wrap around.
- Idme.Emmc.UpdateVarsEx: a failed switch of the eMMC partition counts as a cut
  before the next write. Single-variable updates and boot mode keys are out.
- Fdc.Controller.ReadData: bytes are counted in whole sectors; of the result bytes
  only whether they report an error, and of a seek only whether it works.
- Eeprom.Device.Write: the FRAM, SPI and X40430 variants, and the device address
  bits that are or-ed into the block number.
- Bedbug.Asm: splitting into words, lower-casing, numbers and special register
  names are inputs, and so are the opcode and operand tables. `htonl` is the
  identity, as on PowerPC.
- Bedbug.FindOpcode: says nothing of what is found when several entries match.
- Fastboot.Loader.Multiflash: sparse images, NAND, and what the card does with the
  rest of a last sector. Transfer buffer and partitions are below 2 GiB.
- Fastboot.Loader.RxData: padding for NAND, and commands other than `download:`
  and `multiflash:`.
- Bootm.LayoutIsSound: command line and board information have room outside the
  first page. A RAM disk that is not copied at all (a limit of all ones), headers,
  checksums, decompression and clock values are out.
- LogBuffer.Log.Printk: printing on the console, and `log show`, which prints
  nothing of a ring that is exactly full. Texts fit the 1024-byte buffer.
- SRecord.SaveSerial: baud rate switching around the upload; loading S-records,
  whose decoder (`srec_decode`) is not part of this model.
- Y-modem, image signatures, boot commands, and the thin device commands.
