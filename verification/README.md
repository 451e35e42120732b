# Models of the algorithmic commands of U-Boot

This project models seven command files of U-Boot, with the string library and the S-record decoder they rest on, and
states what they promise as Dafny contracts and lemmas.  `dafny verify dfyconfig.toml` checks the whole project.

| area | files | what it is about |
|---|---|---|
| Kermit | `KermitProtocol`, `KermitDelivery`, `KermitScan`, `KermitReplies`, `KermitReceiver`, `KermitLoad` | a download over a serial line that writes straight into RAM and undoes a bad or repeated packet by a checkpoint |
| S-records | `SrecText`, `SrecTransfer`, `SrecKinds`, `SrecSerial`, `SrecSaver` | saving a memory range as text records and loading it again |
| Partition table | `MtdNumbers`, `MtdGrammar`, `MtdSyntax`, `MtdValid`, `MtdRoundTrip`, `MtdScanner`, `MtdPrinter`, `MtdCurrent`, `MtdCommands`, `MtdContents`, `MtdTable` | the `mtdparts` grammar, its printer, the sorted lists with their current partition, and the cache of the last parsed text |
| Environment | `EnvList`, `EnvGuards`, `EnvStore` | variables as NUL-ended strings in one buffer, deleted by shifting and set by appending |
| Flash | `FlashPlan`, `FlashSafety`, `FlashExact`, `Flash` | from an address interval to the sectors of several banks |
| Boot | `BootCopy`, `BootMemory`, `BootImage`, `BootFormat`, `BootLayout`, `BootPlaces`, `GzipHeader` | moving, unpacking and placing a kernel and its ramdisk |
| Log | `LogText`, `LogCalls`, `LogBuffer` | level prefixes inserted into a stream that a ring keeps the end of |
| EEPROM | `PageArithmetic`, `EepromFlat`, `EepromBus` | a device that wraps inside a page, seen as a flat array |
| shared | `Bytes`, `Options` | octets, sums, concatenation, `Option` |

Each area has a specification on values (functions, and the theorems about them) and, where the source changes things
step by step, classes and methods with arrays, fields and loops that are proved to compute those functions.  What holds
of the functions over all inputs and all runs therefore holds of the loops.

Conventions.  Octets are integers from 0 to 255 and bit operations are written as division and remainder.  Where the
width of an integer matters, 32-bit wrap-around is written out.  The console, the I2C bus, breaks on the console and the
answers of device code are parameters: input sequences, or functions that say which step fails.  The EEPROM itself is part
of the model: a write transaction fills a page that wraps, all of it or a beginning when it fails, and a read transaction
returns consecutive cells of the block that the chip address selects.

Where the code and its documentation disagree, the model follows the code:

- `lib_generic/string.c` documents `memmove` as coping with overlapping areas.  The code that is compiled in copies
  upwards by long words.  `BootCopy.GenericMemmoveIff` states exactly for which areas it keeps the promise.
- `serial#` and `ethaddr` are documented as variables that can be set only once.  The comparison uses the name as typed,
  while the search stops at a `=`.  `EnvList.WriteOnceIff` states exactly which names keep the promise.
- The loop that reloads images between watchdog resets is meant to be one move.  `BootCopy.WatchdogCopyIff` states
  exactly when it is.
- `mtdparts del` is meant to leave the current partition selected.  With two partitions at one offset the 8-bit index can
  leave its list, and `u-boot/common/cmd_jffs2.c:275-276` then reads the name of a partition that is not there.  Such a
  step does not come back in the model; `MtdCurrent.DeleteAtKeeps` states exactly which ones.
- `mtdparts` and the device list are meant to stay the same.  A table with two partitions at one offset is printed to a
  text that reads back differently, and the next initialisation takes that text for parsed.
  `MtdCommands.CacheAgreesOnEveryRun` states exactly when the two agree.
- A data record shorter than its own address is accepted (`u-boot/common/s_record.c:77-80`) and copied with a negative
  count (`u-boot/common/cmd_load.c:182`).  `SrecSerial.StoredIff` states exactly which records are.
- The comment at `u-boot/common/cmd_load.c:880-886` says that the sequence character is assumed to arrive intact.
  `KermitDelivery.ExactlyOnce` makes that assumption explicit, and `KermitDelivery.EarlyErrorDropsPacket` shows what
  happens without it.

## Model

| member | source | states |
|---|---|---|
| KermitProtocol.CheckModulo | u-boot/common/cmd_load.c:579-587 | the block check does not depend on whether characters were added as signed or unsigned: any multiple of 256 in the sum drops out |
| KermitProtocol.ScanUsed | u-boot/common/cmd_load.c:866-956 | reading a packet consumes at least one character and never more than there are, so every packet makes progress |
| KermitProtocol.ScanPrefix | u-boot/common/cmd_load.c:866-956 | a packet is judged by its own characters: what follows on the line cannot change the verdict |
| KermitScan.CheckFolds | u-boot/common/cmd_load.c:579-587 | the block check is 32 plus the six low bits of the sum with its two next bits added, modulo 64 |
| KermitScan.CheckShowsBit | u-boot/common/cmd_load.c:579-587 | a sum that is off by one bit of an octet has another check |
| KermitScan.AcceptIff | u-boot/common/cmd_load.c:866-956 | exactly the packets with printable characters, a fitting length, the right block check over everything before it (and over the header of an extended packet) and CR behind it are accepted, with the number, type and data they hold |
| KermitScan.AcceptedIsFramed | u-boot/common/cmd_load.c:866-956 | what is accepted was framed octet for octet: the converse of `ScanFramed` and `ScanFramedLong` |
| KermitScan.OneBitShows | u-boot/common/cmd_load.c:926-962 | with one wrong bit anywhere behind its length character, an accepted packet is not accepted any more |
| KermitScan.ScanPrompt | u-boot/common/cmd_load.c:866-956 | the verdict on a packet falls with the last character it reads |
| KermitScan.StarvedIff | u-boot/common/cmd_load.c:866-956 | the receiver waits for more exactly as long as some continuation would still be accepted |
| KermitDelivery.QuoteRoundTrip | u-boot/common/cmd_load.c:690-705 | control-quoted octets, fed through the escape state machine from any state outside an escape, append exactly the original octets and end outside an escape |
| KermitDelivery.QuoteLosslessIff | u-boot/common/cmd_load.c:569-577 | a quote character loses nothing for any octet sequence if and only if the translation leaves the quote character itself alone |
| KermitDelivery.QuotedIsPrintable | u-boot/common/cmd_load.c:930-936 | a quoted data field holds no control character, so the receiver never rejects it for one |
| KermitDelivery.ScanFramed | u-boot/common/cmd_load.c:866-956 | a packet framed with length, sequence, type and block check is accepted with exactly its number, type and data |
| KermitDelivery.ScanFramedLong | u-boot/common/cmd_load.c:906-956 | the same for extended-length packets, with the header check and the two base-95 length characters |
| KermitDelivery.LongLength | u-boot/common/cmd_load.c:909-920 | every length up to 95 * 223 survives its two characters, and both are printable |
| KermitDelivery.ReplyWellFormed | u-boot/common/cmd_load.c:597-622 | every reply starts after the padding asked for, has the length its length character announces, and up to its block check is a packet that the receive path would accept with the same number, type and data; behind it comes the end character asked for, whichever it is, and none for NUL |
| KermitDelivery.InitPayloadFits | u-boot/common/cmd_load.c:713-797 | for every parameter string received, the answer is printable and fits the 24-byte reply buffer with frame and terminator |
| KermitDelivery.RepliesToAnyParameters | u-boot/common/cmd_load.c:713-797 | for every parameter string and sequence character received, the answer and every later ACK and NAK under those parameters are such packets and fit the 24-byte reply buffer |
| KermitReplies.OfferTaken | u-boot/common/cmd_load.c:713-797 | of any offer of padding, pad character, end-of-line and quote, the receiver takes up exactly those given, and the defaults for those left out |
| KermitReplies.KtransIff | u-boot/common/cmd_load.c:569-577 | unquoting changes exactly the quoted forms of control characters |
| KermitReplies.AnswerAsksDefaults | u-boot/common/cmd_load.c:713-797 | the answer, read as an offer, asks for no padding, CR and `#`, however many parameters were received |
| KermitReplies.AnswerText | u-boot/common/cmd_load.c:731-793 | one answer for each parameter, in characters; the tenth draws the last four at once |
| KermitReplies.EtxAborts | u-boot/common/cmd_load.c:852-863 | a break between packets aborts the load, whatever noise is before it |
| KermitReplies.NoiseWaits | u-boot/common/cmd_load.c:852-863 | noise alone is waited out |
| KermitReplies.HeaderErrorAnswered | u-boot/common/cmd_load.c:866-879 | an error in the header is answered by a NAK under the last number read, and rolls back |
| KermitReplies.EachAttemptAnswered | u-boot/common/cmd_load.c:957-974 | over every run of attempts the receiver sends one reply for each, in order: an ACK under its number exactly for those it accepts |
| KermitDelivery.SkipQuiet | u-boot/common/cmd_load.c:852-863 | noise between packets, without a start character or a break, changes nothing |
| KermitDelivery.RunAttempt | u-boot/common/cmd_load.c:835-974 | one transmission attempt, damaged or not, has the effect of the checkpoint step followed by the verdict on its body |
| KermitDelivery.TriedKeepsBase | u-boot/common/cmd_load.c:880-897 | after any attempt at a packet, the state to fall back on is the one before the packet, and a delivered attempt has exactly the packet's effect on it |
| KermitDelivery.RunExchange | u-boot/common/cmd_load.c:835-974 | any number of damaged or repeated attempts followed by a good one has the effect of the packet taken once |
| KermitDelivery.ExactlyOnce | u-boot/common/cmd_load.c:800-976 | over every schedule of damaged, repeated and re-acknowledged packets, also of damaged ones that pass the block check, the receiver finishes with the data of each distinct packet once and in order |
| KermitDelivery.IntendedIsFile | u-boot/common/cmd_load.c:638-705 | data fields that quote the pieces of a file, with the quote negotiated on the way, unquote to the file |
| KermitDelivery.FileArrives | u-boot/common/cmd_load.c:800-976 | a file cut into pieces, quoted and sent over any such line arrives whole |
| KermitDelivery.AcceptedKeptIff | u-boot/common/cmd_load.c:866-897 | accepted data becomes the state to fall back on if and only if the next packet's length and sequence characters arrive printable and with a new number, whatever happens to the rest of it |
| KermitDelivery.EarlyErrorDropsPacket | u-boot/common/cmd_load.c:866-897 | a damaged length character right after an accepted packet discards that packet's data for good: the assumption that header characters arrive intact is needed |
| KermitReceiver.Receiver.KDataSave | u-boot/common/cmd_load.c:680-684 | the checkpoint is the data so far and the escape flag |
| KermitReceiver.Receiver.KDataRestore | u-boot/common/cmd_load.c:685-689 | the data and the escape flag are those of the checkpoint again |
| KermitReceiver.Receiver.KDataChar | u-boot/common/cmd_load.c:690-705 | one character through the escape machine into RAM; the checkpoint is not disturbed |
| KermitReceiver.Receiver.Chk1 | u-boot/common/cmd_load.c:579-587 | the check over the buffer up to its NUL is the check of the unsigned sum, on machines with signed and with unsigned characters |
| KermitReceiver.Receiver.S1SendPacket | u-boot/common/cmd_load.c:589-595 | the padding negotiated and then the buffer up to its NUL go to the line |
| KermitReceiver.Receiver.SendAck | u-boot/common/cmd_load.c:598-609 | an acknowledgement frame with the sequence number and nothing else is sent |
| KermitReceiver.Receiver.SendNack | u-boot/common/cmd_load.c:611-622 | the same for a negative acknowledgement |
| KermitReceiver.Receiver.CrackParms | u-boot/common/cmd_load.c:715-786 | the parameters taken up and the length of the answer are those of the negotiation on the parameter string, including strings that filled the buffer |
| KermitReceiver.Receiver.HandleSendPacket | u-boot/common/cmd_load.c:713-797 | the answer to a send-initiate carries one field for each field received, up to the capabilities |
| KermitReceiver.Receiver.RecvData | u-boot/common/cmd_load.c:930-947 | reading the data field agrees with the scanner: starved, rejected at the same character, or all data fed to RAM or to the parameter buffer |
| KermitReceiver.Receiver.RecvRest | u-boot/common/cmd_load.c:930-956 | data field, block check and end character agree with the scanner |
| KermitReceiver.Receiver.RecvLongHeader | u-boot/common/cmd_load.c:906-929 | the extended length and its header check agree with the scanner |
| KermitReceiver.Receiver.CheckSequence | u-boot/common/cmd_load.c:880-897 | a repeated number rolls back to the checkpoint, a new one moves it |
| KermitReceiver.Receiver.PacketError | u-boot/common/cmd_load.c:957-962 | an error rolls back to the checkpoint and sends a negative acknowledgement |
| KermitReceiver.Receiver.Acknowledge | u-boot/common/cmd_load.c:963-972 | a good packet is answered by kind, and only a break ends the transfer |
| KermitReceiver.Receiver.RecvPacket | u-boot/common/cmd_load.c:864-972 | a packet from its length character on consumes what the scanner consumes and makes the step of the session that its verdict calls for |
| KermitReceiver.Receiver.KDataInit | u-boot/common/cmd_load.c:811-824 | the session starts empty, with default parameters and no sequence number seen |
| KermitReceiver.Receiver.Turn | u-boot/common/cmd_load.c:835-974 | one turn of the main loop is one step of the run of the session on the input that is left |
| KermitReceiver.Receiver.KRecv | u-boot/common/cmd_load.c:800-976 | the outcome is that of the protocol's run on the same input, and on success RAM from the start address for the returned size is exactly the data of the session |
| KermitLoad.LoadSerialBin | u-boot/common/cmd_load.c:531-558 | whatever was damaged or repeated before the last attempt at each packet, RAM from the offset holds the file sent, and its size is what is reported |
| SrecText.PiecesTile | u-boot/common/cmd_load.c:346-380 | the pieces a memory range is cut into are consecutive, at most 16 bytes, and together exactly the range, also across the end of the address space |
| SrecText.ChecksumSums | u-boot/common/cmd_load.c:361-370 | length, address, data and checksum octets of a record add up to 0xFF modulo 256 |
| SrecText.RecordRoundTrip | u-boot/common/s_record.c:30-170 | every S3 record written is decoded to its address, its count and its data |
| SrecKinds.DigitsAre | u-boot/common/s_record.c:172-181 | the hexadecimal digits, in both cases, and their values |
| SrecKinds.KindDecodes | u-boot/common/s_record.c:62-170 | every kind of data, start and end record, with two, three or four address octets as its type says, decodes to its address and data if its octets add up to 255, and is refused otherwise |
| SrecKinds.AddressIs | u-boot/common/s_record.c:103-148 | addresses of two, three and four octets are read with the most significant octet first |
| SrecKinds.CountDecodes | u-boot/common/s_record.c:81-84 | a count record holds its count in the address and no data, whatever its length says |
| SrecKinds.OtherTypes | u-boot/common/s_record.c:98-100 | any other type is refused |
| SrecKinds.NoiseSkipped | u-boot/common/s_record.c:39-54 | what comes before the first `S` does not matter |
| SrecTransfer.ReadPlain | u-boot/common/cmd_load.c:218-253 | a line without control characters that fits the buffer is read back whole |
| SrecKinds.LineEnds | u-boot/common/cmd_load.c:226-235 | a line ends at CR or newline |
| SrecKinds.LineBreaks | u-boot/common/cmd_load.c:236-238 | NUL and control-C break the download off |
| SrecKinds.LineRoom | u-boot/common/cmd_load.c:219-254 | a line of 516 characters is taken as it is, and what follows is the next line |
| SrecKinds.LineWaits | u-boot/common/cmd_load.c:226-227 | without an end the reader waits |
| SrecKinds.KindLoads | u-boot/common/cmd_load.c:158-216 | a good data record of any kind is stored at its address plus the offset, an end record gives the entry address, and any other is passed over |
| SrecKinds.PiecesAre | u-boot/common/cmd_load.c:345-375 | record i of the saver holds the 16 octets from 16 * i on, or what is left |
| SrecTransfer.SavedLoads | u-boot/common/cmd_load.c:327-385 | loading what was saved of any range makes consecutive stores from the shifted address on whose bytes are exactly the range, and ends with entry address 0 |
| SrecSerial.SrecDecode | u-boot/common/s_record.c:30-170 | the decoder's loops give the type, address, signed count and data, or the same error, as the format says for every text |
| SrecSerial.TakeOctets | u-boot/common/s_record.c:143-151 | reading pairs of digits yields the octets, or stops at the first bad pair, and adds them to the checksum modulo 256 |
| SrecSerial.FieldSums | u-boot/common/s_record.c:153-160 | the complement comparison is the test that all octets add up to 0xFF |
| SrecSerial.ReadRecord | u-boot/common/cmd_load.c:218-253 | a line, a truncated line, a break, or waiting for more, as the characters and the room decide |
| SrecSerial.LoadSerial | u-boot/common/cmd_load.c:143-216 | for every text, the stores made and the way the download ends are those of the records in order: an end record, an error, a break, a wait for more input, or a copy with a negative count, which runs away |
| SrecSerial.StoredIff | u-boot/common/cmd_load.c:166-183 | a data record with a right checksum stores exactly its data octets if and only if its length counts at least the address and the checksum; otherwise the copy is asked for nearly 2^32 octets |
| SrecSerial.ShortRecord | u-boot/common/s_record.c:77-80 | the line `S30200000000FD` is accepted with count -3 and makes the copy run away |
| SrecSaver.FinishChecksum | u-boot/common/cmd_load.c:361-370 | the accumulated sum of length and address octets in either order gives the complement checksum of the record |
| SrecSaver.BuildRecord | u-boot/common/cmd_load.c:356-374 | the text of a record is the hexadecimal form of its length, address, data and checksum |
| SrecSaver.Turn | u-boot/common/cmd_load.c:346-384 | one turn collects a byte and sends the record when it is full or the last one, keeping the text sent in step with the pieces of the range |
| SrecSaver.SaveSerial | u-boot/common/cmd_load.c:332-385 | the text sent is start record, data records and end record; a break after any record stops it with an error and leaves a beginning of that text |
| MtdNumbers.MemsizeRoundTrip | u-boot/common/cmd_jffs2.c:198-245 | every 32-bit size, printed with its largest suffix, is parsed back to the same size, in front of any text a definition can continue with |
| MtdSyntax.SpellingRead | u-boot/common/cmd_jffs2.c:198-219 | every decimal, octal or hexadecimal spelling with any unit suffix is read as its value in 32 bits |
| MtdSyntax.DefinitionRead | u-boot/common/cmd_jffs2.c:602-700 | every definition that can be typed is read as the size, offset, name and flag it asks for, unless the size is below 4096 or a fill-up partition is not the last |
| MtdSyntax.DefinitionsRead | u-boot/common/cmd_jffs2.c:867-944 | every list of definitions is read as the partitions it stands for, each without an offset starting where the one before it ends, or refused if one of them is |
| MtdSyntax.DeviceRead | u-boot/common/cmd_jffs2.c:867-960 | a device text gives the device of that name with those partitions, sorted |
| MtdSyntax.DefinitionEnds | u-boot/common/cmd_jffs2.c:660-700 | whatever is accepted as a definition ends with a comma, in front of a semicolon or with the text; a fill-up partition not with a comma |
| MtdSyntax.DueBehindLast | u-boot/common/cmd_jffs2.c:905-925 | for a device that is listed already, definitions go on behind its last partition |
| MtdSyntax.Refusals | u-boot/common/cmd_jffs2.c:1390-1430 | a text without the prefix or with nothing behind it, a device without a colon, of an unknown name or without definitions is refused |
| MtdSyntax.PrintedExample | u-boot/common/cmd_jffs2.c:1107-1224 | the text of a table of two devices, character by character |
| MtdValid.ValidIff | u-boot/common/cmd_jffs2.c:322-437 | in unbounded integers, validation takes exactly the partitions that are not empty, end inside their device and have both ends on erase boundaries, and changes only a fill-up size, which then reaches the end of the device |
| MtdValid.ParsedInside | u-boot/common/cmd_jffs2.c:1390-1430 | every partition of every parsed table is such a one |
| MtdValid.EveryRunInside | u-boot/common/cmd_jffs2.c:1556-1684 | and so is every partition after every run of commands |
| MtdRoundTrip.ParsedTableOk | u-boot/common/cmd_jffs2.c:1390-1437 | every table that parses has valid sorted partitions, right counts, distinct devices and known ids |
| MtdRoundTrip.SortAllSorted | u-boot/common/cmd_jffs2.c:517-571 | insertion in any order gives a list sorted by offset that holds exactly the partitions inserted |
| MtdRoundTrip.SortAddInserts | u-boot/common/cmd_jffs2.c:517-571 | the list walk inserts before the first partition that does not start lower, and refuses a second one at offset 0 |
| MtdRoundTrip.ReadPart | u-boot/common/cmd_jffs2.c:602-710 | a printed partition is read back field by field, with its offset left out exactly when it follows from the one before, and refused exactly when it is too small or takes the remaining space without being last |
| MtdRoundTrip.ReadDevice | u-boot/common/cmd_jffs2.c:867-992 | a printed device is read back with its partitions in list order, or refused |
| MtdRoundTrip.RoundTripIff | u-boot/common/cmd_jffs2.c:1107-1224 | a valid table comes back from its own text if and only if every list sorts to itself, every partition is readable and every device name still resolves to that device |
| MtdRoundTrip.DistinctSortBack | u-boot/common/cmd_jffs2.c:517-571 | lists with distinct offsets sort to themselves |
| MtdRoundTrip.EqualOffsetsSwap | u-boot/common/cmd_jffs2.c:517-571 | two partitions at one nonzero offset come back in the opposite order, so their list sorts to itself only if they are the same |
| MtdScanner.SimpleStrtoul | u-boot/lib_generic/vsprintf.c:24-49 | value and end of a number with automatic base, modulo 2^32 |
| MtdScanner.MemsizeParseAt | u-boot/common/cmd_jffs2.c:198-218 | value and end of a size with its suffix |
| MtdScanner.PartParse | u-boot/common/cmd_jffs2.c:602-710 | one partition definition, with the same refusals as the grammar and the index behind it |
| MtdScanner.PartsParse | u-boot/common/cmd_jffs2.c:909-945 | the definitions of a device, each validated, with missing offsets taken from the end of the one before |
| MtdScanner.PartValidate | u-boot/common/cmd_jffs2.c:407-437 | fills in the remaining size and refuses what leaves the device, overflows or is not aligned to sectors or erase blocks |
| MtdScanner.ListSortAdd | u-boot/common/cmd_jffs2.c:517-571 | the list walk is the sorted insertion |
| MtdScanner.DeviceParse | u-boot/common/cmd_jffs2.c:867-992 | a device with its sorted partitions and the index of the next device, or a refusal |
| MtdScanner.MtdpartsParse | u-boot/common/cmd_jffs2.c:1390-1437 | the whole text into an emptied table, or a refusal |
| MtdPrinter.EmitPart | u-boot/common/cmd_jffs2.c:1142-1205 | the pieces of a partition text are written within the budget, or the budget is too small for the text |
| MtdPrinter.GenerateMtdparts | u-boot/common/cmd_jffs2.c:1107-1224 | succeeds if and only if the text behind the prefix is shorter than the budget, and then the buffer holds the printed table |
| MtdCurrent.InsertKeepsCurrent | u-boot/common/cmd_jffs2.c:540-566 | the current index is stepped exactly when the insertion lands at or before it, and then points to the same partition |
| MtdCurrent.DeleteKeepsCurrentIff | u-boot/common/cmd_jffs2.c:456-471 | deleting another partition leaves the current index on its partition if and only if the comparison by offset does not miscount |
| MtdCurrent.AddAtKeeps | u-boot/common/cmd_jffs2.c:517-593 | adding keeps lists sorted and counted, the current index in range, and current on the same partition unless the 8-bit index steps from 255 to 0, which takes more than 255 partitions |
| MtdCurrent.DeleteAtKeeps | u-boot/common/cmd_jffs2.c:446-486 | deleting keeps lists sorted and counted and current listed; the index leaves the range exactly for the faulting family; current stays on its partition unless that one is deleted or the deletion is miscounted, and distinct offsets rule both families out; a device left empty goes |
| MtdCurrent.FaultExample | u-boot/common/cmd_jffs2.c:458-483 | a valid table of two partitions at one offset whose deletion leaves index 255 in a list of one |
| MtdCurrent.DropDeviceKeeps | u-boot/common/cmd_jffs2.c:788-810 | removing a device keeps the table well formed, and current where it is unless it was on that device |
| MtdCurrent.AddDeviceKeeps | u-boot/common/cmd_jffs2.c:840-856 | a new device is listed last and takes current only from an empty list |
| MtdContents.AddAtContents | u-boot/common/cmd_jffs2.c:517-593 | an addition puts just that partition on its device and changes no other |
| MtdContents.DeleteAtContents | u-boot/common/cmd_jffs2.c:446-486 | a deletion takes just that partition from its device, or the device with its last one, and changes no other |
| MtdContents.DeleteUndoesAdd | u-boot/common/cmd_jffs2.c:446-593 | deleting what was added gives the table back |
| MtdContents.AddedContents | u-boot/common/cmd_jffs2.c:2048-2102 | `mtdparts add` lists a new device behind the others, or puts one more partition on a listed one |
| MtdContents.CurrentDeleted | u-boot/common/cmd_jffs2.c:458-486 | deleting the current partition makes the first one of its device current, and deleting the current device the first one of all |
| MtdContents.DeviceAdded | u-boot/common/cmd_jffs2.c:836-858 | the first device of a table becomes current with its first partition; a later one goes behind the others |
| MtdContents.ChosenIsCurrent | u-boot/common/cmd_jffs2.c:1985-2003 | a partition that exists and whose number fits 8 bits becomes current when it is chosen; any other choice changes nothing |
| MtdCurrent.FlatIndex | u-boot/common/cmd_jffs2.c:252-285 | counting the partitions of the devices in front locates a partition in the concatenated table |
| MtdCommands.AddedOk | u-boot/common/cmd_jffs2.c:2048-2102 | `mtdparts add` keeps the state invariant, with the cache equal to the printed table, and leaves current on its partition when lists hold at most 255 |
| MtdCommands.DeletedOk | u-boot/common/cmd_jffs2.c:1357-1381 | `mtdparts del` keeps the state invariant unless it faults, which it does exactly for the faulting family; with distinct offsets it never faults, and current stays on its partition unless that is the one deleted |
| MtdCommands.SavedOk | u-boot/common/cmd_jffs2.c:1234-1246 | saving leaves the printed text as the cache, or none when it is too long; the text parses to the table if and only if the table survives a round trip |
| MtdCommands.InitAgrees | u-boot/common/cmd_jffs2.c:1556-1684 | when initialisation succeeds with `mtdparts` set, the device list is a fresh parse of the variables if and only if it parsed them, or `mtdparts` is not the printed text of a table that does not survive a round trip |
| MtdContents.InitCurrent | u-boot/common/cmd_jffs2.c:1636-1682 | after a successful initialisation the partition asked for is current if it exists, else the first one of a table just parsed, or the same one as before of a table that was kept |
| MtdContents.InitUnset | u-boot/common/cmd_jffs2.c:1658-1660 | with `mtdparts` unset a table that came from it is cleared, and any other is kept |
| MtdContents.InitFails | u-boot/common/cmd_jffs2.c:1590-1643 | texts of more than 127 or 511 characters and a missing `mtdids` are refused without a change; variables that do not parse leave an empty table and no cache |
| MtdContents.SavedIsTaken | u-boot/common/cmd_jffs2.c:1234-1246 | a saved table that fits is taken as it is by the next initialisation |
| MtdContents.TooLongNotSaved | u-boot/common/cmd_jffs2.c:1234-1246 | a table whose text behind the prefix is longer than 511 is not cached |
| MtdCommands.EveryRunOk | u-boot/common/cmd_jffs2.c:1556-1684 | after every sequence of initialise, add, delete, select and clear commands that comes back, lists are sorted, counted and valid, current is listed with an index in range, and the cached text parses to the table or is its printed text |
| MtdCommands.FaultIsReached | u-boot/common/cmd_jffs2.c:446-486 | two commands reach the fault: initialise with two partitions at one offset, and delete the second one listed |
| MtdCommands.RunComesBack | u-boot/common/cmd_jffs2.c:252-285 | every run along which offsets stay distinct comes back, and ends in such a state |
| MtdCommands.CurrentStays | u-boot/common/cmd_jffs2.c:446-571 | over every run of adds, and of deletions of partitions other than the current one, current stays the same partition, with distinct offsets and lists of at most 255 |
| MtdCommands.CacheAgreesOnEveryRun | u-boot/common/cmd_jffs2.c:1556-1684 | after every such sequence, a successful initialisation agrees with a fresh parse of the variables exactly under the condition of `InitAgrees` |
| MtdCommands.MisledIsReached | u-boot/common/cmd_jffs2.c:1617-1656 | two commands reach a table that the next initialisation keeps although a fresh parse of `mtdparts` gives another one |
| MtdCommands.NumberSelectsCurrent | u-boot/common/cmd_jffs2.c:252-285 | the current partition has a place in the concatenated table, and `mtddevnum` is that place if and only if it fits 16 bits |
| MtdCommands.NumberOnEveryRun | u-boot/common/cmd_jffs2.c:252-285 | after every run that comes back, with at most 65536 partitions, `mtddevnum` is the index of the current partition in the concatenated table |
| MtdTable.Table.IndexPartitions | u-boot/common/cmd_jffs2.c:252-285 | sets `mtddevnum` to the number of the current partition, or removes it; faults exactly if the current index denotes no partition |
| MtdTable.Table.PartSortAdd | u-boot/common/cmd_jffs2.c:517-571 | list, count and current index after a sorted insertion |
| MtdTable.Table.PartAdd | u-boot/common/cmd_jffs2.c:580-593 | inserts and renumbers, or changes nothing |
| MtdTable.Table.PartDel | u-boot/common/cmd_jffs2.c:446-486 | unlinks a partition, drops a device left empty, and renumbers; faults exactly for the faulting family |
| MtdTable.Table.DeviceDel | u-boot/common/cmd_jffs2.c:788-810 | unlinks a device and chooses a new current one if it was current |
| MtdTable.Table.DeviceAdd | u-boot/common/cmd_jffs2.c:840-856 | appends a device, current if it is the first |
| MtdTable.Table.DevicesInit | u-boot/common/cmd_jffs2.c:999-1006 | empties table, cache and numbering |
| MtdTable.Table.GenerateSave | u-boot/common/cmd_jffs2.c:1234-1246 | caches and exports the printed table, or clears the cache |
| MtdTable.Table.AddPartition | u-boot/common/cmd_jffs2.c:2048-2102 | the `add` command keeps the invariant and makes the step that the specification of the command makes |
| MtdTable.Table.DeletePartition | u-boot/common/cmd_jffs2.c:1357-1381 | the `del` command makes the step of the specification and keeps the invariant, or faults where that step does not come back; never with distinct offsets |
| MtdTable.Table.Choose | u-boot/common/cmd_jffs2.c:1985-2003 | `chpart` makes the partition asked for current if it exists and its number fits 8 bits, and changes nothing otherwise; the invariant and the number are kept |
| MtdTable.Table.SyncTable | u-boot/common/cmd_jffs2.c:1634-1684 | parses only when text or ids changed, clears when the variable is gone |
| MtdTable.Table.MtdpartsInit | u-boot/common/cmd_jffs2.c:1556-1684 | makes the step of the specification and keeps the invariant in every case; the device list after success is a fresh parse of the variables under the same exact condition, and the current partition is that of `InitCurrent` |
| EnvList.EncodeInjective | u-boot/common/cmd_nvedit.c:295-326 | the bytes determine the list: two lists whose encodings begin alike are the same |
| EnvList.EncodedAt | u-boot/common/cmd_nvedit.c:175-181 | where the bytes of each string lie in the buffer |
| EnvList.NoDoubleNul | u-boot/common/cmd_nvedit.c:298-299 | the first double NUL is the end of the list |
| EnvList.SetFacts | u-boot/common/cmd_nvedit.c:157-386 | a set keeps names unique, leaves every other variable with its value, reads back when it succeeds, deletes the variable when it overflows, changes nothing when refused, and never needs more than the buffer |
| EnvGuards.Names | u-boot/common/cmd_nvedit.c:186-230 | the guarded names, in characters |
| EnvGuards.OrdinaryNotRefused | u-boot/common/cmd_nvedit.c:186-258 | no other variable is ever refused |
| EnvGuards.NewNotRefused | u-boot/common/cmd_nvedit.c:186 | nor is a variable refused that is not defined yet |
| EnvGuards.SerialIff | u-boot/common/cmd_nvedit.c:187-202 | `serial#`, once defined, is refused exactly without the overwrite option |
| EnvGuards.EthaddrIff | u-boot/common/cmd_nvedit.c:187-202 | `ethaddr`, once defined, is refused exactly without that option and when it does not read as its configured default |
| EnvGuards.ConsoleIff | u-boot/common/cmd_nvedit.c:204-229 | `stdin`, `stdout` and `stderr` are refused exactly when they would be deleted or the console code refuses |
| EnvGuards.BaudrateIff | u-boot/common/cmd_nvedit.c:231-258 | `baudrate` is refused exactly when the rate is not supported |
| EnvGuards.SetIff | u-boot/common/cmd_nvedit.c:262-386 | a set that is not refused succeeds exactly if all definitions and the last NUL fit the buffer, and then reads as the values joined by blanks; else the variable is gone; every other one stays |
| EnvGuards.OrdinarySet | u-boot/common/cmd_nvedit.c:157-386 | so it is with every ordinary variable, whatever the configuration |
| EnvGuards.OrdinaryDelete | u-boot/common/cmd_nvedit.c:157-386 | deleting an ordinary variable always succeeds and leaves every other one |
| EnvGuards.DefaultReplaced | u-boot/common/cmd_nvedit.c:187-202 | `ethaddr` can be replaced while it reads as its default |
| EnvGuards.ReplacedOnce | u-boot/common/cmd_nvedit.c:187-202 | once it reads as anything else, no run of calls changes or removes it, unless a name contains `=` behind that name |
| EnvList.RefusedKeep | u-boot/common/cmd_nvedit.c:186-258 | calls for other variables and refused calls leave a variable as it was, so without a call that is not refused it reads as before the run |
| EnvList.LastCallDecides | u-boot/common/cmd_nvedit.c:157-386 | over every run of calls, the last call for a variable that is not refused decides how it reads: its new value after a success, nothing after a deletion or for lack of room |
| EnvList.WriteOnce | u-boot/common/cmd_nvedit.c:186-202 | no run of calls changes or removes `serial#` or `ethaddr` once defined, unless a name contains `=` behind that name |
| EnvList.AliasDeletes | u-boot/common/cmd_nvedit.c:563-573 | a name with `=` behind a write-once name deletes that variable |
| EnvList.WriteOnceIff | u-boot/common/cmd_nvedit.c:186-202 | a name is harmless for a write-once variable in every environment if and only if it is not such a name |
| EnvStore.Environment.EnvMatch | u-boot/common/cmd_nvedit.c:563-573 | the value's offset if and only if the parts before `=` are equal |
| EnvStore.Environment.Search | u-boot/common/cmd_nvedit.c:172-181 | finds the string of a name, its end and its value, if and only if it is in the list |
| EnvStore.Environment.Shift | u-boot/common/cmd_nvedit.c:266-274 | everything behind moves down over the deleted string up to and including the double NUL, and no byte outside changes |
| EnvStore.Environment.Delete | u-boot/common/cmd_nvedit.c:260-275 | the buffer afterwards encodes the list without that entry, for first, middle, last and only entries |
| EnvStore.Environment.FindEnd | u-boot/common/cmd_nvedit.c:298-301 | where the next string goes, also in an empty environment |
| EnvStore.Environment.Room | u-boot/common/cmd_nvedit.c:302-310 | the room for a name, its values and both NULs |
| EnvStore.Environment.Write | u-boot/common/cmd_nvedit.c:315-326 | writes name, `=`, values separated by blanks, and the double NUL, and nothing else |
| EnvStore.Environment.Permitted | u-boot/common/cmd_nvedit.c:186-258 | the guards on an existing variable |
| EnvStore.Environment.Append | u-boot/common/cmd_nvedit.c:295-326 | appends if and only if the encoding of the longer list fits the buffer |
| EnvStore.Environment.SetEnv | u-boot/common/cmd_nvedit.c:157-386 | list and return value are those of the set on lists; no byte at or past the size of the environment is written |
| EnvStore.Environment.GetEnv | u-boot/common/cmd_nvedit.c:488-508 | points to the NUL-ended value of the variable, or finds nothing, as the list says |
| FlashPlan.TakeFacts | u-boot/common/cmd_flash.c:229-265 | within a bank, the range taken is exactly the sectors inside the interval |
| FlashExact.JudgeIff | u-boot/common/cmd_flash.c:221-276 | what one bank contributes, by what begins and ends in it: taken, refused or passed by |
| FlashPlan.PlanStaysInside | u-boot/common/cmd_flash.c:198-279 | planning never selects a sector that reaches outside the requested interval, as long as no bank at address 0 follows one that ends at the top of the address space |
| FlashSafety.WrapsAround | u-boot/common/cmd_flash.c:263-264 | asked for a bank that ends at the top of the address space, planning wraps to address 0 and takes the whole of a bank there that is listed behind it |
| FlashSafety.SafeIff | u-boot/common/cmd_flash.c:198-279 | for banks that share no address, planning stays inside every request if and only if no such pair of banks exists |
| FlashExact.PlanExact | u-boot/common/cmd_flash.c:198-279 | on contiguous banks with the end in flash, planning selects something if and only if the interval starts and ends on sector boundaries, and then exactly the sectors inside |
| FlashExact.SectorsTile | u-boot/common/cmd_flash.c:198-279 | every sector of a known bank that meets an interval from a sector start to a sector end lies inside it |
| FlashExact.EachAddressOnce | u-boot/common/cmd_flash.c:198-279 | the sectors inside such an interval tile it: every address of it lies in one of them, and in no other sector of a known bank |
| FlashExact.RoundUpFacts | u-boot/common/cmd_flash.c:161-192 | rounding finds the end of a listed sector that holds an address, of a known bank or not, if and only if there is one |
| FlashExact.RoundingAddsNothing | u-boot/common/cmd_flash.c:155-160 | the sectors inside the rounded interval are exactly those that meet the addresses asked for, when only known banks list the last address |
| Flash.JudgeBank | u-boot/common/cmd_flash.c:221-275 | the sector loop and the checks behind it give skip, failure, or the range and where planning goes on |
| Flash.ChosenExactly | u-boot/common/cmd_flash.c:620-671 | success if and only if the interval is a union of whole sectors, and then exactly those are chosen |
| Flash.ChosenInside | u-boot/common/cmd_flash.c:620-671 | whatever is chosen on any banks without the wrap lies inside the request |
| Flash.FlashBanks.FillSectRanges | u-boot/common/cmd_flash.c:198-279 | one range for each bank and the number of sectors in all of them, or an error, as planned |
| Flash.FlashBanks.Switch | u-boot/common/cmd_flash.c:638-658 | the protect bits of planned sectors in known banks are set and all others are as they were |
| Flash.FlashBanks.FlashSectProtect | u-boot/common/cmd_flash.c:620-671 | protects exactly the chosen sectors, and changes none when planning fails or selects nothing |
| Flash.FlashBanks.Protect | u-boot/common/cmd_flash.c:620-671 | on contiguous banks, exactly the sectors inside the interval if it consists of whole sectors, else none |
| Flash.FlashBanks.RoundedEnd | u-boot/common/cmd_flash.c:147-193 | the end of the sector that holds the last address of "start +length", or none |
| Flash.FlashBanks.ProtectLength | u-boot/common/cmd_flash.c:125-196 | "start +length" switches what is planned up to the rounded end, on all banks; on contiguous banks, without wrap, when no unknown bank lists the last address, that is exactly the sectors that meet the addresses asked for, if and only if they begin at a sector start and end in flash, with the rounded end behind the first address |
| LogText.RingHoldsTail | u-boot/common/cmd_log.c:244-250 | over any sequence of calls the ring holds the last characters of the whole annotated stream, as many as it has room for |
| LogText.AnnotatedTagged | u-boot/common/cmd_log.c:225-241 | every line of the stream that begins in a call starts with a level |
| LogText.AnnotatedInserts | u-boot/common/cmd_log.c:225-241 | the stream has every character of the call at its place, the default level before each line that has none, and nothing else |
| LogText.PrefixesStripped | u-boot/common/cmd_log.c:225-241 | without the inserted prefixes the stream is the text of the call |
| LogText.StreamTagged | u-boot/common/cmd_log.c:215-263 | over any sequence of calls, with lines that continue from one call to the next, every line that begins starts with a level |
| LogCalls.LevelsAre | u-boot/common/cmd_log.c:228-238 | the levels are `<0>` to `<7>`, the inserted one is `<4>`, and the ring holds 16 KiB |
| LogCalls.CallsJoinIff | u-boot/common/cmd_log.c:215-263 | two calls log what one call with both texts would, exactly if no level is torn apart between them; else they log more |
| LogCalls.StreamIsText | u-boot/common/cmd_log.c:215-263 | over any sequence of calls that tears no level apart, the stream is that of one call with the whole text |
| LogBuffer.LogBuffer.Reset | u-boot/common/cmd_log.c:185-189 | the text goes, an open line stays open |
| LogBuffer.LogBuffer.Put | u-boot/common/cmd_log.c:244-250 | one character is appended and a full ring loses its oldest, with start and size masked by a power of two and counters that wrap at 32 bits |
| LogBuffer.LogBuffer.MissesLevel | u-boot/common/cmd_log.c:227-233 | the level test looks no further than the terminator |
| LogBuffer.LogBuffer.Tag | u-boot/common/cmd_log.c:234-237 | the prefix is put in front of the line over bytes already logged, and the line itself stays intact |
| LogBuffer.LogBuffer.OneLine | u-boot/common/cmd_log.c:225-260 | one line is logged with its level, and the index stops at its line feed or at the end |
| LogBuffer.LogBuffer.Printk | u-boot/common/cmd_log.c:215-263 | ring and line state are those of the annotated stream, and the counter grows by the characters logged, for every line that fits the scratch buffer |
| BootCopy.MovesRightIff | u-boot/lib_generic/string.c:469-502 | a copy by units, lowest first, moves every memory content correctly if and only if the target does not lie inside the source above its start or one unit is enough |
| BootCopy.WatchdogCopyIff | u-boot/common/cmd_bootm.c:312-326 | over a correct memmove the watchdog loop equals one memmove for every memory if and only if the target is not above the start and inside the source, or one chunk is enough |
| BootCopy.GenericMemmoveIff | u-boot/lib_generic/string.c:460-502 | the generic memmove copes with overlapping areas if and only if the target is not above the start and inside the source, or the length is one long word |
| BootCopy.WatchdogIsNeutral | u-boot/common/cmd_bootm.c:312-326 | over the generic memmove the watchdog loop makes no difference, for all areas |
| BootFormat.ChunksAre | u-boot/common/cmd_bootm.c:316-328 | the watchdog loop moves pieces of 64 KiB and what is left last |
| BootFormat.LongsAre | u-boot/lib_generic/string.c:469-502 | the compiled memmove moves len / 4 long words and then len % 4 octets |
| BootMemory.GenericMemmove | u-boot/lib_generic/string.c:469-502 | moves long words and then bytes, each unit read before it is written |
| BootMemory.ExactMemmove | u-boot/lib_generic/string.c:473-486 | the direction-aware memmove, which the source keeps inside `#if 0`, moves the bytes as they were before the call, for all areas |
| BootMemory.LoadImage | u-boot/common/cmd_bootm.c:312-326 | the chunk loop leaves the memory of one move, except when an image longer than a chunk moves up over itself |
| BootMemory.LoadImageGeneric | u-boot/common/cmd_bootm.c:756-770 | the chunk loop over the generic memmove leaves the memory of one call of it |
| BootImage.FindKernel | u-boot/common/cmd_bootm.c:274-281 | the kernel's length is the first size and its data starts behind the zero word |
| BootImage.FindRamdisk | u-boot/common/cmd_bootm.c:684-701 | the ramdisk's data starts behind kernel and padding, and there is one exactly if the second size is not zero |
| BootFormat.NetworkOrder | u-boot/README:3046-3048 | words are in network byte order, in memory and as written |
| BootFormat.PadRounds | u-boot/README:3049-3051 | an image is filled up to a multiple of 4 with fewer than 4 octets |
| BootFormat.PackLayout | u-boot/README:3046-3051 | in a packed image word k is the size of image k, a zero word follows the sizes, and image k stands at a multiple of 4 from the base with fewer than 4 octets between it and the one before |
| BootImage.KernelFoundIff | u-boot/common/cmd_bootm.c:274-281 | in a packed image the kernel pointer is right if and only if no image but the first is empty |
| BootImage.PartsAreImages | u-boot/README:3046-3051 | kernel and ramdisk are the first and second image of the list, byte for byte |
| BootImage.BootParts | u-boot/common/cmd_bootm.c:684-701 | on every packed list whose later images are not empty, kernel pointer and length select the first image and ramdisk pointer and length the second, with none when there is only one |
| BootLayout.Place | u-boot/common/cmd_bootm.c:546-568 | whatever the stack, limits and length, the addresses computed step by step form a sound layout if and only if the length fits the branch that places the ramdisk |
| BootLayout.RamdiskPart | u-boot/common/cmd_bootm.c:716-747 | the ramdisk is page aligned and ends at or below the board information, or lies between the limit and the stack margin, unless a subtraction wrapped, and then it reaches the top page of the address space |
| BootLayout.SoundIff | u-boot/common/cmd_bootm.c:716-753 | command line, board information, ramdisk and the stack with its margin are pairwise disjoint, aligned, and the ramdisk ends at or below the board information or starts at the limit or above, if and only if the ramdisk's length fits the branch that places it |
| BootPlaces.LowHighest | u-boot/common/cmd_bootm.c:548-558 | limit, command line and board information each go to the highest 16-octet boundary that leaves room below what is above them |
| BootPlaces.RamdiskHighest | u-boot/common/cmd_bootm.c:715-748 | a ramdisk goes to the highest page below the stack and `initrd_high` if that is not below the limit, and else to the highest page below the board information |
| GzipHeader.SkipHeader | u-boot/common/cmd_bootm.c:1255-1280 | the index reached, or the refusal, is that of the header skip on the octets |
| GzipHeader.HeaderSkipped | u-boot/common/cmd_bootm.c:1255-1280 | for every member header of section 2.3 of RFC 1952, with any combination of optional fields, the index is the first octet of compressed data, or the data is out if there is none |
| GzipHeader.SkipIff | u-boot/common/cmd_bootm.c:1255-1280 | an index is reached if and only if the octets before it are such a header and data follows |
| GzipHeader.RefusedIff | u-boot/common/cmd_bootm.c:1262-1265 | bad data is reported if and only if the method is not deflate or a reserved flag is set |
| GzipHeader.FlagsOneByOne | u-boot/common/cmd_bootm.c:1247-1280 | what each flag adds to the header, octet by octet |
| EepromFlat.SamePage | u-boot/common/cmd_eeprom.c:222-278 | a chunk inside one page lands on consecutive cells, those of the flat view, although the device wraps |
| EepromFlat.ChipBits | u-boot/common/cmd_eeprom.c:234-253 | the chip address has the bits of the device address and those of the offset above its address octets |
| EepromBus.Eeprom.ReadChunk | u-boot/common/cmd_eeprom.c:150-190 | a read transaction ends at a multiple of 256, at the transfer limit or at the end, and shows the cells of its offsets |
| EepromFlat.ReachableDistinct | u-boot/common/cmd_eeprom.c:234-253 | offsets whose block bits are disjoint from the device address share no cell |
| EepromFlat.ReadsBackIff | u-boot/common/cmd_eeprom.c:206-380 | what a write without failure leaves shows every content in the range if and only if no two of its offsets share a cell |
| EepromBus.Eeprom.WriteLength | u-boot/common/cmd_eeprom.c:255-278 | a chunk never passes the end of its page or the transfer limit, and stops only there or at the end |
| EepromBus.Eeprom.EepromWrite | u-boot/common/cmd_eeprom.c:206-380 | no cell outside the range ever changes; after success the bytes were laid over the cells of the range in order, and a range whose offsets share no cell holds them; after a failure such cells hold new or old bytes; failure is reported if and only if a transaction failed; a range that wraps the address is not written |
| EepromBus.Eeprom.EepromRead | u-boot/common/cmd_eeprom.c:132-195 | success returns the flat view of the range and leaves the memory as it was |
| EepromBus.WriteThenRead | u-boot/common/cmd_eeprom.c:132-380 | writing a range and reading it returns the bytes written when no transaction fails, on every range whose offsets share no cell, which every range clear of the device address bits is |

## Left out

- KermitReceiver.Receiver.KRecv: the counters `os_data_state` and `os_data_count` are not modelled, since nothing reads them.
- KermitDelivery.ExactlyOnce: length and sequence characters are assumed to arrive intact, as the source says.
- LogBuffer.LogBuffer.Printk: the echo to the console is not modelled.
- MtdPrinter.GenerateMtdparts: the budget does not count the prefix `mtdparts=`, as in the source, so only the text behind it is bounded.
- MtdScanner.SimpleStrtoul: only the automatic base is modelled, which is what the callers use.
- MtdTable.Table.AddPartition: the assembly of the text from command arguments and the text of generated partition names are not modelled.
- MtdTable.Table.MtdpartsInit: values of variables are strings, so a pointer into the environment that went stale is not modelled; the parse of `mtdids` is a parameter; the text of `partition` and `mtddevname` is not modelled. With `mtdparts` unset, no cached text and a new `mtdids`, devices stay listed while the source frees the id entries they point to (`u-boot/common/cmd_jffs2.c:1462-1467`); in the model they keep their ids.
- EnvStore.Environment.SetEnv: console and baud rate code is a parameter that allows or refuses; the checksum, the network address and the load address derived from variables are not modelled.
- Flash.FlashBanks.ProtectLength: arguments are numbers; the text forms of `addr_spec` and `abbrev_spec` are not modelled.
- BootLayout.SoundIff: board limits are assumed to leave room below the stack for command line and board information, `bootargs` is assumed to fit its area, and the stack not to reach the last 2048 bytes of the address space.
- BootMemory.LoadImage: addresses do not wrap at the end of the address space, and alignment faults of long accesses are not modelled.
- BootImage.FindKernel: the image header and its checksums are not modelled.
- SrecSerial.LoadSerial: a store goes to memory or to flash; how flash is written, the size reported and the echo are not modelled.
- EepromBus.Eeprom.EepromWrite: the FRAM, SPI and X40430 variants, the write protection of the device and delays are not modelled.
- `flash_sect_erase`, `getenv_r`, `log show`, `printenv`, `saveenv` and all argument parsing of commands: outside these models.
- `inflate`, `bzip2` and `crc32` bodies, the ymodem download, `cmd_fastboot.c`, `circbuf.c`, `bedbug.c` and the device drivers: outside these models.
