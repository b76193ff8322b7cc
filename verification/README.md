# Verification of the ethersex and matemat firmware

A Dafny model of the algorithms, protocols and storage structures of the AVR firmware, with
proofs of what they promise and, where the code does not keep a promise, of exactly when it
does. `dafny verify dfyconfig.toml` checks everything.

| file | models |
|---|---|
| `Integers.dfy`, `Bits.dfy`, `Words.dfy` | integer widths, single bits, and what the operations on 32-bit words do to numbers |
| `OneWire.dfy` | the 1-Wire ROM search over a wired-AND bus |
| `FlashLayout.dfy`, `Checksum.dfy` | the byte layout of the dataflash pages, and the checksum of the root page |
| `Filesystem.dfy` | the page allocator, the inode tables, the root page and the scan for it |
| `Files.dfy`, `FileWriting.dfy` | reading, sizing and writing files |
| `Directory.dfy` | the sorted table of names |
| `Formatting.dfy` | formatting and mounting, and the first file on an arbitrary flash |
| `Tftp.dfy`, `TftpDataflash.dfy` | the TFTP servers of the boot loader and of the application |
| `Rc5.dfy` | the infrared sender and the interrupt driven receiver |
| `Skipjack.dfy`, `Llh.dfy`, `Cast5.dfy`, `Cast5Keys.dfy`, `Md5.dfy` | ciphers and key schedule, packet encryption, message digest |
| `SkipjackStandard.dfy`, `Rfc2144.dfy`, `Rfc1321.dfy`, `Sine.dfy` | the ciphers and the digest as their standards define them, on 16-bit words and on numbers, the constants of MD5 from the sine, and that the firmware computes these |
| `Psock.dfy`, `Framing.dfy`, `Base64.dfy` | reading TCP streams, serial frames, in-place decoding |
| `Stella.dfy` | pulse width dimming: sort, handing over, interrupts |
| `Clock.dfy`, `Priceline.dfy` | calendar conversion, the vending machine's serve lines |

How the parts are modelled:

* An object or a set of globals that the C code updates is a class whose methods have the
  loops and branches of the C functions. Their contracts tie the new state to a specification
  on values, and the lemmas are about that specification.
* The dataflash is a sequence of 4096 pages of 528 bytes, and programming a page is one
  atomic step. `history` records the flash after every such step: what a power failure leaves.
  A read past the end of a page wraps inside the page, as the chip does.
* The 1-Wire bus knows which devices still take part in a search. The code is generalised
  from eight ROM bytes to any number.
* C integer widths are kept where they matter: eight-bit counters wrap, sixteen-bit products
  wrap, bit fields cut off.
* S-boxes and substitution tables are arbitrary functions, so the cipher results hold for all.
  The table of MD5 is that of the firmware, and is proved to be the one of the sine.
  Random bytes (the first block of a packet), fresh memory, polled bytes, network packets and
  timer values are parameters.

## What the proofs found

* The boot loader's TFTP receiver keeps a file safe over every loss, duplication and
  reordering, unless the file has exactly 64 KiB: then the address of the empty last block
  wraps to 0 and its padding wipes the first block. `Tftp.UploadIsSafe` is the exact condition.
* A download block whose packet is lost is never sent again, whatever the client acknowledges
  afterwards (`Tftp.LostBlockIsNotSentAgain`).
* `fs_new_inode` reports "none" as 0xffff, but the result goes into twelve-bit fields first, so
  the test never fires: with no free inode, inode 4095 is used (`Directory.GiveInode`,
  `FileWriting.FreeInode`).
* The allocator never marks what it hands out, so it hands out a page twice as soon as it is
  asked for more pages than were free when it was started (`Filesystem.AllocatedPagesDistinct`).
* Mounting marks only the first page of each file, so the other pages of a file that was there
  before are not kept from the allocator (`Formatting.Init`).
* A write commits the inode of a page before it saves the page: a power failure in between
  leaves the file under write with stale bytes (`FileWriting.BetweenCommitAndSave`).
* `fs_write` stores its data exactly when they stay inside one block: the buffer pointer does
  not advance over a page boundary (`FileWriting.StoredExactlyWithinABlock`).
* A root page whose version counter has wrapped loses the commit (`Filesystem.TakesOverIffNewer`).
* `fs_format` leaves the last inode of each of the sixteen tables to what the buffer held before
  (`Formatting.Format`).
* `fs_get_inode` finds a removed name as long as the entry behind the last live one still
  carries it (`Directory.GetInode`).
* `llh_decrypt` returns a payload exactly up to 247 bytes; above, the eight-bit padding index
  rejects the packet or never ends (`Llh.RoundTrip`).
* A colour of 0 next to another colour keeps all other pins on (`Stella.DimmedExactly`).
* The extra day of a leap year goes to March (`Clock.Datetime`).
* More than 256 edges make the RC5 receiver start over and lose step for good
  (`Rc5.StaysInStep`, `Rc5.CountedIffShort`).
* MD5 pads a message of 2 to the 32 bits or more unlike RFC 1321 (`Md5.PaddingIsStandard`), and
  one that does not end with a whole byte unless the bits behind it are zero
  (`Md5.LastByteIsStandard`).
* Decoding a base64 text whose length is not a multiple of four reads on past its end
  (`Base64.StrDecode`).

## Model

| member | source | states |
|---|---|---|
| OneWire.FirstPassFindsLeast | firmware/onewire/onewire.c:265-345 | a completed first pass leaves the least device in bit-0-first order, and the remembered discrepancy is the last place where it has 0 and another device with the same beginning has 1 |
| OneWire.PassFindsSuccessor | firmware/onewire/onewire.c:289-345 | a later pass leaves the next larger device, with its own last discrepancy |
| OneWire.NoDiscrepancyMeansLast | firmware/onewire/onewire.c:274-276 | when no discrepancy is remembered no device is larger, so that stopping is right |
| OneWire.PassStep | firmware/onewire/onewire.c:291-338 | one bit of the loop, from the two bits read to the bit sent, keeps the search on the path to the next device |
| OneWire.ReadAnswers | firmware/onewire/onewire.c:291-293 | the two bits read on the wired-AND bus tell whether a device that still takes part has 0, has 1, or none is left |
| OneWire.SharingStep | firmware/onewire/onewire.c:337-338 | the devices left after a bit is sent are those that share the code up to that bit |
| OneWire.PrecedesIsTransitive | firmware/onewire/onewire.c:261-347 | bit-0-first order is an order: it is transitive |
| OneWire.Search.SetAddressBit | firmware/onewire/onewire.c:247-258 | exactly one bit of the ROM code is set |
| OneWire.Search.SearchRom | firmware/onewire/onewire.c:261-347 | returns 1 with the least device, or the successor of the last one, and 0 when there is none |
| OneWire.Search.ListDevices | firmware/ecmd_parser/onewire.c:70-130 | one first call and repeated next calls find every device exactly once, in order, and then end |
| FlashLayout.HeaderRoundTrip | firmware/dataflash/fs.c:79-87 | page headers with their bit fields survive being written and read |
| FlashLayout.TableNodeRoundTrip | firmware/dataflash/fs.c:106-111 | so do inode table entries |
| FlashLayout.NodeRoundTrip | firmware/dataflash/fs.c:89-96 | so do directory entries |
| FlashLayout.HeaderLayout | firmware/dataflash/fs.c:79-87 | as a little endian number a header has its flags in the lowest four bits, the inode in the next twelve and the size in the upper half |
| FlashLayout.TableNodeLayout | firmware/dataflash/fs.c:106-111 | an inode entry has its flag in the lowest bit and its page in the upper twelve |
| FlashLayout.NodeLayout | firmware/dataflash/fs.c:89-96 | a directory entry has its flags in the lowest bits, its inode in the upper twelve, and the name behind them |
| FlashLayout.SealedPage | firmware/dataflash/fs.c:1246-1260 | writing version and checksum leaves header, tables and names as they were and makes the page pass the checks of a scan |
| FlashLayout.PutTableNode | firmware/dataflash/fs.c:1310-1316 | writing one inode entry changes that entry only |
| FlashLayout.PutTablePage | firmware/dataflash/fs.c:1323-1331 | writing one table address changes that address only |
| FlashLayout.PutEntry | firmware/dataflash/fs.c:698-702 | writing one directory entry changes that entry only |
| Checksum.ChecksumIsRemainder | firmware/dataflash/fs.c:43-57 | bytes with one more behind them are, lowest bit first, a multiple of x^8 + x^5 + x^4 + 1 over two elements if and only if that one is their checksum |
| Checksum.ValidRootIsMultiple | firmware/dataflash/fs.c:917-926 | a page passes the scan if and only if its flags say root and all its bytes are such a multiple |
| Checksum.OneByteIsNoticed | firmware/dataflash/fs.c:1223-1236 | bytes that differ in exactly one place have different checksums |
| Checksum.RunIsInjective | firmware/dataflash/fs.c:1223-1236 | from different beginnings the same bytes lead to different checksums |
| Checksum.DamagedRootIsRefused | firmware/dataflash/fs.c:907-926 | a root page with one damaged byte, anywhere, is not taken for one |
| Filesystem.FreeFromIsFirst | firmware/dataflash/fs.c:1073-1094 | the search finds the first free page in ring order, or nothing if and only if every page but the last free one is used |
| Filesystem.RunVisits | firmware/dataflash/fs.c:1073-1094 | a run of allocations visits every free place on the ring between its ends |
| Filesystem.AllocatedPagesDistinct | firmware/dataflash/fs.c:1073-1094 | the pages of `n` allocations in a row are pairwise distinct if and only if there are at least `n` free pages, or no more than one |
| Filesystem.AllocatedIsUnprotected | firmware/dataflash/fs.c:1073-1094 | before it wraps, an allocated page was neither marked used nor handed out before |
| Filesystem.NextIsAhead | firmware/dataflash/fs.c:1073-1094 | an allocation takes exactly one of the pages ahead of the allocator, and fails if and only if there is none, as long as it does not wrap |
| Filesystem.AllAhead | firmware/dataflash/fs.c:131-133 | after mounting, the pages ahead are all free pages, except page 0 when it is the only one |
| Filesystem.NewestIsUnique | firmware/dataflash/fs.c:890-972 | at most one page is the root page that a scan finds |
| Filesystem.TakesOverIffNewer | firmware/dataflash/fs.c:915-960 | a sealed root page takes over if and only if its version is ahead, or equal at a lower page; a wrapped version loses |
| Filesystem.SaveOther | firmware/dataflash/fs.c:1317-1319 | programming a page without live metadata leaves the recovered inode map as it was |
| Filesystem.SaveRoot | firmware/dataflash/fs.c:1269-1273 | programming a newer root page switches the recovered map over at once |
| Filesystem.TableReplaced | firmware/dataflash/fs.c:1280-1336 | a changed table page and a root page that names it change the map at exactly one inode |
| Filesystem.RootTakesOver | firmware/dataflash/fs.c:1238-1278 | after the save of a sealed root page the filesystem is mounted from it with the map it presents |
| Filesystem.RootIsLost | firmware/dataflash/fs.c:1246-1273 | a root page saved after the version has wrapped leaves the old map and names to be recovered |
| Filesystem.TableSaved | firmware/dataflash/fs.c:1306-1336 | after the first save of an inode change the old map still stands and the buffered root page presents the new one |
| Filesystem.Fs.NewPage | firmware/dataflash/fs.c:1073-1094 | returns the first free page after the last one in ring order, or 0xffff if and only if every other page is used |
| Filesystem.Fs.Scan | firmware/dataflash/fs.c:890-972 | finds the valid root page with the highest version, if there is one |
| Filesystem.Fs.Increment | firmware/dataflash/fs.c:1238-1278 | succeeds if and only if there is a page ahead; with one page save commits the buffered root page under the next version, or changes nothing on the flash; when the version wraps the old map is still the one recovered |
| Filesystem.Fs.SaveTable | firmware/dataflash/fs.c:1287-1331 | the new table page is saved, the old map still stands, and the buffered root page presents the new one |
| Filesystem.Fs.UpdateInodeTable | firmware/dataflash/fs.c:1280-1336 | succeeds if and only if there are two pages ahead, and takes them and one version; the map changes at exactly one inode, and a power failure after any page save leaves the old map or the new one under the same names |
| Filesystem.Fs.Mark | firmware/dataflash/fs.c:1172-1209 | exactly one page changes its mark in the bitmap |
| Filesystem.Fs.NewInode | firmware/dataflash/fs.c:1096-1120 | the first inode that points nowhere, or 0xffff if there is none |
| Files.Size | firmware/dataflash/fs.c:829-888 | the size is the length of the content of the page chain |
| Files.SeekToRead | firmware/dataflash/fs.c:308-332 | the seek ends on the page that holds the offset, or past the end |
| Files.Read | firmware/dataflash/fs.c:291-391 | counts exactly the bytes of the file in the asked range, and delivers them |
| FileWriting.StoredExactlyWithinABlock | firmware/dataflash/fs.c:487-492 | a write stores its data, whatever they are, if and only if they stay inside one block |
| FileWriting.StoredWrongly | firmware/dataflash/fs.c:605-606 | data for which a longer write stores something else |
| FileWriting.SplitStep | firmware/dataflash/fs.c:444-495 | filling a page and going on keeps the chain that is being built |
| FileWriting.LastStep | firmware/dataflash/fs.c:497-549 | the last page completes the chain: every page but the last holds 512 bytes and names the next inode, and the chain reads as the old content with the data laid over it |
| FileWriting.SeekToWrite | firmware/dataflash/fs.c:405-424 | the seek ends on the page to begin with, or fails if and only if the file has too few pages |
| FileWriting.FreeInode | firmware/dataflash/fs.c:469-473 | the inode for the next page points nowhere as long as there is one, else it is 4095 |
| FileWriting.Redirect | firmware/dataflash/fs.c:433-442 | succeeds if and only if there are three pages ahead, and takes them and one version; a fresh page, which still holds what it held, is given to the inode in one commit that a power failure cannot split; on failure nothing points elsewhere |
| FileWriting.FillPage | firmware/dataflash/fs.c:444-495 | a page filled up and chained to a new inode is saved without touching any safe page |
| FileWriting.LastPage | firmware/dataflash/fs.c:497-546 | so is the last page |
| FileWriting.WriteExisting | firmware/dataflash/fs.c:428-557 | the loop over the pages of an existing file: it succeeds if and only if the pages suffice, and leaves exactly the pages, versions and inodes that the budget says |
| FileWriting.WriteNew | firmware/dataflash/fs.c:561-632 | the loop over the pages of a new file: likewise |
| FileWriting.Write | firmware/dataflash/fs.c:393-634 | BADSEEK if and only if the offset lies behind the chain, else FS_OK if and only if there are three pages ahead for every page written; then the file reads as before with the stored data laid over it, and exactly these pages, a version each and an inode each but the last are used up; all other files stay, after every single page save, and after a failure so does this one |
| FileWriting.AppendedBlock | firmware/tftp/tftp-dataflash.c:169-172 | blocks of up to 512 bytes written one after the other add up |
| FileWriting.OtherFilesSurvive | firmware/dataflash/fs.c:393-634 | a power failure anywhere in a write leaves every other file whole and all names as they were |
| FileWriting.BetweenCommitAndSave | firmware/dataflash/fs.c:433-546 | a power failure between the commit of an inode and the save of its page leaves the file under write whole if and only if the fresh page happens to hold the block already |
| FileWriting.FollowsTransitively | firmware/dataflash/fs.c:393-634 | writes to one file in a row leave every other file whole at each of their page saves |
| Directory.StrNCmpField | firmware/dataflash/fs.c:279-279 | comparing a stored name with a string is comparing two name fields |
| Directory.LessIsTotal | firmware/dataflash/fs.c:663-672 | the order of names is a strict total order |
| Directory.LessMeans | firmware/dataflash/fs.c:669-672 | a name comes before another if and only if it has the smaller byte where they first differ |
| Directory.StrNCmpTransitive | firmware/dataflash/fs.c:663-672 | and transitive |
| Directory.PartedStep | firmware/dataflash/fs.c:663-672 | counting the smaller names finds the place in the order |
| Directory.InsertedIsDirectory | firmware/dataflash/fs.c:698-725 | an entry put in at its place keeps the table sorted and adds exactly its binding |
| Directory.RemovedIsDirectory | firmware/dataflash/fs.c:779-814 | an entry taken out keeps the table sorted and drops exactly its binding |
| Directory.GetInode | firmware/dataflash/fs.c:262-289 | every live name gives its inode; a name that is not live gives 0xffff if and only if the entry behind the last live one does not carry it |
| Directory.GiveInode | firmware/dataflash/fs.c:686-691 | a new entry gets the first inode that points nowhere, or 4095 when all are taken |
| Directory.Create | firmware/dataflash/fs.c:636-732 | FS_DUPLICATE if and only if the name is live, and then nothing changes; else FS_OK if and only if there is a page ahead: one page save adds exactly one binding at its place in the order |
| Directory.Remove | firmware/dataflash/fs.c:734-827 | FS_NOSUCHFILE if and only if the name is not live, and then nothing changes; else FS_OK if and only if there are three pages ahead: the binding goes and its inode points nowhere; from the first page save on every power failure leaves the table without the name, and the old or the new inode map; with no page ahead nothing changes |
| Formatting.RootFields | firmware/dataflash/fs.c:1016-1023 | the root structure written at once gives the header, version and table addresses it was filled with |
| Formatting.FilledTable | firmware/dataflash/fs.c:1010-1013 | after the filling every inode of a table is unused, but for the last one, which depends on the old content of the buffer |
| Formatting.Format | firmware/dataflash/fs.c:974-1070 | after a scan the new root page is the newest, names nothing, and exactly the inodes that the filling reaches are sure to point nowhere; before its last page save there is no new root page |
| Formatting.InodesAfterFormat | firmware/dataflash/fs.c:1010-1013 | at least 4080 of the 4096 inodes are free after formatting |
| Formatting.Init | firmware/dataflash/fs.c:125-225 | mounts any flash whose newest root page is sound: the map and names that a power failure left, with exactly the live metadata and the first page of every file marked; and formats one without root page, which a power failure on the way leaves to be formatted again |
| Formatting.FormatAndMount | firmware/ecmd_parser/dataflash.c:44-53 | from any flash: mounted, empty directory, seventeen pages used and all 4079 others ahead of the allocator |
| Formatting.FirstName | firmware/dataflash/fs.c:636-732 | from any flash: formatted and with one name, whose inode is free |
| Formatting.FirstFile | firmware/dataflash/fs.c:393-732 | from any flash: formatting, creating a file and writing up to a block to it succeeds, and the file is bound to its name, with its content and size |
| Tftp.ProgrammedBlock | firmware/tftp/tftp-bootload.c:259-267 | a block lands where the file wants it if and only if its address has not wrapped, or the first block is blank anyway |
| Tftp.StepIsSafe | firmware/tftp/tftp-bootload.c:208-284 | every packet of an uploading client keeps the flash as claimed, and block b is acknowledged only when blocks 1 to b are stored |
| Tftp.RunIsSafe | firmware/tftp/tftp-bootload.c:208-284 | so for every series of lost, repeated and reordered packets |
| Tftp.UploadIsSafe | firmware/tftp/tftp-bootload.c:259-284 | for a file of up to 64 KiB all series are safe if and only if it is shorter or its first block is blank |
| Tftp.RepeatedBlock | firmware/tftp/tftp-bootload.c:225-284 | the next block is taken whenever it arrives, and a repeated one is acknowledged again and changes nothing |
| Tftp.BlocksGetThrough | firmware/tftp/tftp-bootload.c:208-284 | when all blocks arrive in order at some time behind the last request, they are taken, whatever else arrives and however often |
| Tftp.Uploaded | firmware/tftp/tftp-bootload.c:259-279 | when the last block is acknowledged the file is in the flash |
| Tftp.Download | firmware/tftp/tftp-bootload.c:120-202 | without loss a client gets the 128 blocks of the flash in order and an empty one |
| Tftp.RepeatedAckIsRefused | firmware/tftp/tftp-bootload.c:129-202 | the acknowledgement that a client repeats when a block is lost is refused, and for the final empty block not answered |
| Tftp.LostBlockIsNotSentAgain | firmware/tftp/tftp-bootload.c:129-202 | after a block was sent, no series of acknowledgements (of numbers below 0xffff) makes the server send a block of that number or a lower one again, and none at all after the final empty block |
| Tftp.Server.FlashPage | firmware/tftp/tftp-bootload.c:52-93 | the page holds the buffer, whether it was programmed or equal before |
| Tftp.Server.StoreBlock | firmware/tftp/tftp-bootload.c:264-267 | the pages of a block make up the block |
| Tftp.Server.HandlePacket | firmware/tftp/tftp-bootload.c:96-302 | answers each packet as the step function of the protocol says, with its sixteen-bit sums |
| TftpDataflash.ReceivedNext | firmware/tftp/tftp-dataflash.c:168-183 | the next block laid over the file brings it one block further, up to files of 64 KiB |
| TftpDataflash.AllReceived | firmware/tftp/tftp-dataflash.c:168-183 | when all blocks are there the content is the file, if and only if no longer one was there before |
| TftpDataflash.Receiver.Data | firmware/tftp/tftp-dataflash.c:155-186 | acknowledged if and only if it is the block last taken, or the next one and the pages suffice for it; over any order of data packets the file under the inode is what was there with the blocks received so far laid over it, also after a failure; exactly the pages, versions and inodes of the write are used up |
| TftpDataflash.Receiver.StoreNext | firmware/tftp/tftp-dataflash.c:168-183 | the write of the next block: what was received is one block longer, or as before when pages lack |
| TftpDataflash.Receiver.WriteRequest | firmware/tftp/tftp-dataflash.c:140-153 | the name is entered if it is not there, for one page and one version, and the upload goes to the one inode that it is bound to; all pages of files stay as they are |
| TftpDataflash.Receiver.Repeat | firmware/tftp/tftp-dataflash.c:140-153 | a request repeated in the middle of an upload begins it again over what is there, and changes nothing on the flash |
| TftpDataflash.Receiver.Handle | firmware/tftp/tftp-dataflash.c:139-199 | any one packet of an upload takes at most six pages, two versions and one inode, and is answered like by the boot loader |
| TftpDataflash.Receiver.Upload | firmware/tftp/tftp-dataflash.c:139-199 | over every series of requests and blocks lost, repeated and reordered, with six pages and two versions for every packet and as many free inodes: the replies and the progress are those of the boot loader's protocol, the file is what was there with the blocks received laid over it, when all are taken it is the file under its name, and a power failure anywhere leaves every other file whole |
| TftpDataflash.Receiver.SendBlock | firmware/tftp/tftp-dataflash.c:100-137 | a block of a download is the block of the file at the sixteen-bit offset, and a short one is the last |
| TftpDataflash.ReadBack | firmware/tftp/tftp-dataflash.c:155-183 | after a complete upload the size is the file's and a read from any place counts exactly the file's bytes |
| TftpDataflash.ReceiveAndReadBack | firmware/tftp/tftp-dataflash.c:139-199 | from any flash: formatted, a file received in up to 679 packets of any series that gets all blocks through has its size under its name, and a read from any place counts and delivers exactly the file's bytes |
| Rc5.WhereEdgesAre | firmware/rc5/rc5.c:62-92 | every bit has an edge in its middle, two equal bits have one between them, and a last one has one at its end |
| Rc5.EdgeParity | firmware/rc5/rc5.c:102-140 | the parity of the edges so far is the level of the line |
| Rc5.BitRecorded | firmware/rc5/rc5.c:372-387 | the parity of the interrupt counter is the bit that just ended |
| Rc5.DecodeUndoesEncode | firmware/rc5/rc5.c:325-436 | for every word that begins with a one, and every timing with 11 to 23 ticks from edge to edge over one half bit and 29 to 41 over two, the edges record the word, and the timeout repairs a trailing zero and delivers it exactly when the half bit count says fourteen bits |
| Rc5.NominalIsWellTimed | firmware/rc5/rc5.c:350-359 | half bits of 17 ticks and bits of 35 ticks are such a timing |
| Rc5.OutOfTimeAborts | firmware/rc5/rc5.c:360-371 | an edge at any time other than 11 to 23 or 29 to 41 ticks aborts the word: whatever follows, nothing is delivered and the timeout makes the receiver idle |
| Rc5.LongWordIsLost | firmware/rc5/rc5.c:331-340 | the edge after the 256th is taken for a first edge and wipes what was recorded |
| Rc5.StaysInStep | firmware/rc5/rc5.c:325-397 | the receiver keeps step with a word at every half bit if and only if the word has no more than 256 edges |
| Rc5.CountedIffShort | firmware/rc5/rc5.c:325-397 | up to 512 edges, the half bit count at the end of a word is right if and only if it has no more than 256 |
| Rc5.Recovery | firmware/rc5/rc5.c:325-436 | after any pulses and overflows the receiver is idle or its timeout is armed, and the timeout makes it idle |
| Rc5.ValueOfWord | firmware/rc5/rc5.c:233-262 | the bits of a word spell its start bits, toggle bit, address and command |
| Rc5.SentIsReceived | firmware/rc5/rc5.h:50-61 | address, command and toggle bit arrive in the fields of the received command, for every such timing |
| Rc5.Sender.SendBits | firmware/rc5/rc5.c:247-259 | the loops send the bits of a number, the highest first |
| Rc5.Sender.Send | firmware/rc5/rc5.c:233-282 | the pin shows the inverse of the signal of the word, ends low, and the toggle bit alternates |
| Rc5.Receiver.Int0Vect | firmware/rc5/rc5.c:325-397 | the edge interrupt does the step of the receiver |
| Rc5.Receiver.Timer0OvfVect | firmware/rc5/rc5.c:400-436 | the overflow interrupt does the timeout |
| Skipjack.GInverse | firmware/crypto/skipjack.c:179-194 | `ginv` and `g` undo each other for every table and key |
| Skipjack.RoundInverse | firmware/crypto/skipjack.c:121-286 | every round is undone by the opposite steps, both ways |
| Skipjack.DecryptUndoesEncrypt | firmware/crypto/skipjack.c:121-286 | decryption and encryption undo each other for every table, key and block |
| Skipjack.KeyIndexMoves | firmware/crypto/skipjack.c:128-133 | the key index runs 4 forward and 6 forward modulo 10 through the same places in opposite directions |
| SkipjackStandard.GIsStandard | firmware/crypto/skipjack.c:60-75 | `g` is the permutation G of the specification: four half steps, each exclusive or of a byte with the table at the other byte and the next key byte |
| SkipjackStandard.RoundIsStandard | firmware/crypto/skipjack.c:121-167 | rounds 1 to 8 and 17 to 24 are rule A on 16-bit words, all others rule B, with the round number as counter and the key from 0, 4, 8, 2 and 6 in turn |
| SkipjackStandard.EncryptIsStandard | firmware/crypto/skipjack.c:121-167 | encryption is eight rounds A, eight B, eight A and eight B of the specification, for every table, key and block |
| Skipjack.MixWord | firmware/crypto/skipjack.c:60-75 | `g` in place |
| Skipjack.UnmixWord | firmware/crypto/skipjack.c:179-194 | `ginv` in place |
| Skipjack.ApplyRuleA | firmware/crypto/skipjack.c:86-96 | rule A in place |
| Skipjack.ApplyRuleB | firmware/crypto/skipjack.c:108-118 | rule B in place |
| Skipjack.ApplyRuleAInv | firmware/crypto/skipjack.c:203-213 | inverse rule A in place |
| Skipjack.ApplyRuleBInv | firmware/crypto/skipjack.c:225-235 | inverse rule B in place |
| Skipjack.SkipjackEnc | firmware/crypto/skipjack.c:121-167 | 32 rounds in place encrypt eight bytes and nothing else |
| Skipjack.SkipjackDec | firmware/crypto/skipjack.c:238-286 | the reversed rounds in place decrypt them |
| Llh.UnchainUndoesChain | firmware/crypto/encrypt-llh.c:62-72 | the chained blocks come back without the first one |
| Llh.ChainUndoesUnchain | firmware/crypto/encrypt-llh.c:87-96 | chaining what was unchained gives the same blocks |
| Llh.RoundTrip | firmware/crypto/encrypt-llh.c:43-118 | a packet comes back if and only if its payload is at most 247 bytes |
| Llh.AcceptedIsEncryption | firmware/crypto/encrypt-llh.c:76-118 | what is accepted with a payload is the encryption of that payload under its first block |
| Llh.Prepare | firmware/crypto/encrypt-llh.c:46-60 | the buffer holds the first block, the payload and the padding |
| Llh.LlhEncrypt | firmware/crypto/encrypt-llh.c:43-73 | the buffer then holds the encryption of the payload |
| Llh.UnchainAll | firmware/crypto/encrypt-llh.c:87-98 | the blocks are decrypted in place, each into the place of the one before |
| Llh.CheckPadding | firmware/crypto/encrypt-llh.c:109-117 | the eight-bit index finds the padding, rejects the packet, or never ends |
| Llh.LlhDecrypt | firmware/crypto/encrypt-llh.c:76-118 | discards packets of a wrong size, else decrypts and unpads |
| Psock.ScanIsPartition | firmware/uip/psock.c:275-299 | the tokens and the rest make up the stream, and every token ends at its first marker |
| Psock.ScanThrough | firmware/uip/psock.c:288-293 | a marker ends the current token wherever a segment was cut |
| Psock.Socket.BufTo | firmware/uip/psock.c:113-145 | consumes exactly through the next marker and keeps what fits in the buffer |
| Psock.Socket.NewData | firmware/uip/psock.c:255-273 | a consumed segment is not offered again |
| Psock.Socket.ReadTo | firmware/uip/psock.c:275-299 | consumes through the next marker of the pending data and leaves the rest for the next call, or consumes all and waits |
| Psock.Application.Invoke | firmware/uip/psock.c:255-299 | after any segment the lines read are the tokens of the whole stream, cut to the buffer |
| Psock.ReadStream | firmware/uip/psock.c:275-299 | the lines do not depend on how the stream is cut into segments |
| Stella.PinsArePartition | firmware/stella/pwm-gpl2.c:125-135 | the masks of the slots are a partition of the pins |
| Stella.TableIsUnique | firmware/stella/pwm-gpl2.c:82-135 | colours call for one table only |
| Stella.Collect | firmware/stella/pwm-gpl2.c:90-107 | every colour is collected once |
| Stella.BubbleSort | firmware/stella/pwm-gpl2.c:109-124 | the collected levels are rearranged into strictly rising order |
| Stella.EnterPins | firmware/stella/pwm-gpl2.c:126-136 | every slot gets exactly the pins of its colour |
| Stella.Sort | firmware/stella/pwm-gpl2.c:81-136 | the table has the colours as strictly rising levels, each with its pins |
| Stella.NoMatchPastTheEnd | firmware/stella/pwm-gpl2.c:52-59 | no compare match comes when there is no slot left |
| Stella.SlotsComeInTime | firmware/stella/pwm-gpl2.c:52-79 | while no colour is 0 each pin is high until the tick of its colour |
| Stella.OthersStayOn | firmware/stella/pwm-gpl2.c:73-78 | with a zero colour and another one the pins of all others stay high |
| Stella.DimmedExactly | firmware/stella/pwm-gpl2.c:52-79 | each pin is high for exactly its colour's ticks if and only if no colour is 0, or all are and the pins were off or are switched off at once |
| Stella.Lamps.Step | firmware/stella/pwm-gpl2.c:138-155 | every statement that stores the new table keeps the active one a whole finished table |
| Stella.Lamps.OverflowIsr | firmware/stella/pwm-gpl2.c:61-79 | the interrupt takes over the last finished table as a whole |
| Stella.Lamps.CompareIsr | firmware/stella/pwm-gpl2.c:52-59 | switches the pins of the next slot off |
| Stella.Lamps.Period | firmware/stella/pwm-gpl2.c:52-79 | over a period the pins follow the table that is active after the overflow |
| Md5.IndexIsListed | firmware/crypto/md5.c:88-117 | the closed forms of the loops give the words, registers and shifts that RFC 1321 lists |
| Md5.Core | firmware/crypto/md5.c:50-66 | one step of the standard in place |
| Md5.Context.NextBlock | firmware/crypto/md5.c:68-118 | the 64 steps of RFC 1321 section 3.4 are added to the registers |
| Md5.OneBlock | firmware/crypto/md5.c:128-146 | fewer than 56 whole bytes are padded to one block |
| Md5.TwoBlocks | firmware/crypto/md5.c:141-146 | 56 whole bytes or more are padded to two |
| Md5.Context.LastBlock | firmware/crypto/md5.c:120-148 | absorbs a rest of any number of bits with the padding and the length in 32 bits; the first bit of the padding goes into a last byte that is not whole |
| Md5.LastByteIsStandard | firmware/crypto/md5.c:134-139 | such a last byte is that of RFC 1321 if and only if its bits behind the message are zero |
| Md5.Hash | firmware/crypto/md5.c:68-148 | the result does not depend on where the caller stops feeding single blocks |
| Md5.PaddingIsStandard | firmware/crypto/md5.c:146-147 | the padding is that of RFC 1321 if and only if the length in bits, modulo 2 to the 64, is below 2 to the 32 |
| Md5.DigestIsStandard | firmware/crypto/md5.c:68-148 | below 2 to the 32 bits the result is the digest of RFC 1321 |
| Rfc1321.MixIsBitwise | firmware/crypto/md5.c:26-40 | bit by bit F takes y where x has a one and z elsewhere, G x where z has one and y elsewhere, H is the parity, and I differs from y where x or not z |
| Rfc1321.StepIsStandard | firmware/crypto/md5.c:50-66 | a step is that of RFC 1321 section 3.4 on numbers: sums modulo 2 to the 32, and rotation by multiplying and dividing by powers of two |
| Rfc1321.WordIsStandard | firmware/crypto/md5.c:64-64 | the words of a block are its bytes, low-order first |
| Rfc1321.TableIsSine | firmware/crypto/md5_sbox.h:4-17 | constant i is the integer part of 4294967296 times the magnitude of the sine of i, whatever values between the 17th and the 18th sum of the power series are taken for sine and cosine of 1 |
| Rfc1321.BeginningIsStandard | firmware/crypto/md5.c:22-28 | the registers begin with the bytes of section 3.3 |
| Rfc1321.PaddedIsRfc1321 | firmware/crypto/md5.c:128-147 | the padding that the firmware is compared with is that of sections 3.1 and 3.2, with the length divided into bytes |
| Rfc1321.DigestIsRfc1321 | firmware/crypto/md5.c:68-148 | the 64 steps over every block of the padded message are the digest of RFC 1321 on numbers, for every message |
| Rfc1321.HashStandard | firmware/crypto/md5.c:22-148 | below 2 to the 32 bits the firmware computes that digest |
| Cast5.RoundTwice | firmware/crypto/cast5.c:265-275 | a round on the swapped halves takes itself back |
| Cast5.DecryptUndoesEncrypt | firmware/crypto/cast5.c:257-303 | decryption and encryption undo each other for any round functions and any number of rounds |
| Cast5.CastEnc | firmware/crypto/cast5.c:257-279 | the 12 or 16 rounds in place |
| Cast5.CastDec | firmware/crypto/cast5.c:286-303 | the rounds backwards in place |
| Rfc2144.ValueIsStandard | firmware/crypto/cast5.c:166-248 | the three functions are the types of RFC 2144 section 2.2 on numbers: sums and differences modulo 2 to the 32, the rotation by powers of two, and Ia to Id by division |
| Rfc2144.EndianIsChanged | firmware/crypto/cast5.c:156-156 | changing the byte order turns the low-order-first number into the high-order-first one |
| Rfc2144.EncryptIsRfc2144 | firmware/crypto/cast5.c:257-279 | encryption is the rounds of the RFC on such numbers, of types 1, 2 and 3 in turn, 12 of them for a short key and 16 otherwise |
| Rfc2144.SetUpAndEncrypt | firmware/crypto/cast5.c:99-279 | from the bytes of the key: 12 rounds for up to 80 bits and 16 above, with the masking words and the low five bits of the rotation words of the schedule |
| Cast5.RoundTrip | firmware/crypto/cast5.c:257-303 | a block encrypted and decrypted in place is what it was |
| Cast5.PackRotations | firmware/crypto/cast5.c:59-84 | four rotation keys go to their nibbles and their high bits |
| Cast5.PackAll | firmware/crypto/cast5.c:127-150 | every round gets back the low five bits of its rotation key |
| Cast5Keys.CopyKey | firmware/crypto/cast5.c:105-107 | the whole bytes of the key, filled up with zeros |
| Cast5Keys.BytesOfKey | firmware/crypto/cast5.c:105-107 | the bytes of the key words are those of the key, and zeros behind it |
| Cast5Keys.InitA | firmware/crypto/cast5.c:35-41 | one routine with a mask does both the A and the B steps of the unrolled listing |
| Cast5Keys.InitM | firmware/crypto/cast5.c:43-52 | one routine with two index tables does the M, N, N' and M' steps |
| Cast5Keys.TopsOfXor | firmware/crypto/cast5.c:54-57 | combining the top bytes of table entries gives the top byte of the combined entries |
| Cast5Keys.RotationBytes | firmware/crypto/cast5.c:59-80 | the bytes computed for the rotation keys are the top bytes of the words of the listing |
| Cast5Keys.Init | firmware/crypto/cast5.c:99-151 | the compact key schedule gives the masking keys and rotations of the unrolled `cast5_old_init`, for all tables and keys of up to 128 bits |
| Clock.YearIsUnique | firmware/clock/clock.c:162-182 | a day lies in one year |
| Clock.DateIsUnique | firmware/clock/clock.c:184-205 | a day of a year has one date |
| Clock.YearStartIs | firmware/clock/clock.c:162-181 | the first day of a year in closed form: 365 for every year since 1970, and one for each leap year between, counted by dividing by 4, 100 and 400 |
| Clock.CycleOf400Years | firmware/clock/clock.c:157-181 | after 400 years, which are 146097 days and whole weeks, the calendar repeats |
| Clock.WeekdayOf2000 | firmware/clock/clock.c:154-155 | the first of January 2000, and of every 400th year after it, is a Saturday |
| Clock.TableIsShifted | firmware/clock/clock.c:188-193 | the months of the firmware begin where those of the calendar do, except for March in a leap year |
| Clock.MonthIsRight | firmware/clock/clock.c:184-205 | the month loop finds the date if and only if the day is not from 29 February to 31 March of a leap year |
| Clock.FindYear | firmware/clock/clock.c:162-180 | the year loop finds the year and the day in it |
| Clock.FindMonth | firmware/clock/clock.c:184-202 | the month loop ends inside the table |
| Clock.Datetime | firmware/clock/clock.c:135-207 | time of day, weekday and year are right for every time stamp; month and day are, except exactly from 29 February to 31 March of leap years |
| Framing.FrameIsRead | firmware2/serial_handler.c:77-109 | a frame returns the length of its payload once, with the payload in the buffer cut to 49 bytes; an empty one returns 0 |
| Framing.FramesAreRead | firmware2/serial_handler.c:25-109 | every frame of a series is read so, from any reader that is not in an escape |
| Framing.OutOfStep | firmware2/serial_handler.c:87-94 | from inside an escape the reader is in step again after one frame |
| Framing.Sender.PutEncoded | firmware2/serial_handler.c:25-33 | escape bytes are doubled |
| Framing.Sender.PutFrame | firmware2/serial_handler.c:35-51 | a frame is sent as start mark, encoded payload and stop mark |
| Framing.Receiver.Readline | firmware2/serial_handler.c:77-109 | one byte, or none, does the step of the reader |
| Framing.ReadLines | firmware2/serial_handler.c:67-75 | polls without data make no difference to the lines |
| Base64.ValueOfLetter | firmware/httpd/base64_mit.c:31-46 | the table is inverse to the alphabet of RFC 4648 |
| Base64.DecodeUndoesEncode | firmware/httpd/base64_mit.c:34-52 | decoding the encoding gives the bytes, and a zero for each pad character |
| Base64.DecodeBlock | firmware/httpd/base64_mit.c:34-52 | four characters become three bytes and a zero in place; nothing is overwritten before it is read |
| Base64.StrDecode | firmware/httpd/base64_mit.c:54-62 | the string is decoded in place from its front on, in whole groups of four, with the bytes behind it when its length is not a multiple of four |
| Base64.RoundTrip | firmware/httpd/base64_mit.c:54-62 | the encoding of any bytes leaves them at the front, followed by zeros |
| Priceline.Machine.Interrupt | firmware2/priceline.c:26-55 | a line becomes active after 21 high samples in a row; an open grant keeps its line; all lines close when the buttons are released and no grant is left |
| Priceline.Machine.Serve | firmware2/priceline.c:62-80 | grants 500 on the active line and nothing else |
| Priceline.Machine.Tick | firmware2/priceline.c:82-105 | the grant runs down by 50 every sixth tick, and the tick that ends it is the one that reports it served |
| Priceline.Run | firmware2/priceline.c:26-105 | over every interleaving a serve line is open only for its own price line, a grant keeps its line, and every grant used up is served once |

## Left out

- Filesystem.Fs.Increment: the allocator must not wrap; what it hands out then is `AllocatedPagesDistinct`.
- Filesystem.Fs.UpdateInodeTable: the same, and the version must not be at its maximum; what becomes of the commit then is `RootIsLost`.
- Formatting.Init: an inode table that lies on a root page, or outside of the flash, cannot be mounted; the code does not look.
- Formatting.Format: a power failure while a flash with files is formatted by command, since it begins by overwriting pages 1 to 16.
- Files.Read: the buffer needs room for the offset into the first block, because the code copies that many bytes too many.
- FileWriting.Write: does not cover writes that begin between the end of the file and the end of its last page, nor a lack of free inodes; the allocator must not wrap and the version must not run out.
- Directory.Create: a table without an unused entry to end it, in which every search runs past the table.
- Directory.Remove: the two commits are atomic each, not together; between them the name is gone and the inode still points to its page.
- TftpDataflash.Receiver.Data: files above 64 KiB, whose later blocks wrap to the beginning.
- TftpDataflash.Receiver.Upload: an existing file must have all its pages protected, as one that was written since mounting has; the pages behind the first of an older file are not marked.
- TftpDataflash.Receiver.SendBlock: downloads of raw pages by number.
- Tftp.Server.HandlePacket: packets shorter than their header, the encrypted variant of the protocol and the delay before the application starts.
- Rc5.DecodeUndoesEncode: words with more than 256 edges, which are lost (`StaysInStep`).
- Rc5.CountedIffShort: words with more than 512 edges, which lose half bits several times.
- Psock.Application.Invoke: a buffer of size 0.
- Base64.StrDecode: needs room in memory for the last group of four.
- Stella.Lamps.Step: port masks are sets of eight pins, so the offset of the pins in the port and other pins of the port do not appear.
- Priceline.Run: handlers that interrupt each other inside, since each is one step.
- Cast5Keys.Init: keys of more than 128 bits, for which the code copies past the end of the key words.
- `malloc` failures, `fs_list`, `fs_inspect_node` and debug output.
- Page saves that stop half way, and devices that join or leave a 1-Wire bus during a search.
- `psock_send`, `psock_generator_send` and `psock_readbuf`.
- The key queue of `rc5_process`, `clock_set_time` and the clock ticks.
- Drivers, pin set-up, delays, command parsing and the uIP stack itself.
