# A verified model of the storage, boot and music code

This project models, in Dafny, the parts of the system that move bytes and keep linked
structures, and proves what they are relied on for. `dafny verify dfyconfig.toml` checks it.

| files | component |
|---|---|
| `Lz4Format`, `Lz4Theory` | the LZ4 block format: written form, reading, meaning byte by byte |
| `Lz4Copy`, `Lz4Decode`, `Lz4Unsafe` | the optimised decoder and the byte-wise one of `lib/lz4/lz4.c` |
| `Lz4Count`, `Lz4Write`, `Lz4Compress`, `Lz4RoundTrip` | the compressor without dictionary, and both directions together |
| `FatWindow`, `FatChain`, `FatFile` | FatFs on FAT12, FAT16 and FAT32: sector window and FAT entries, chains, file input and output |
| `ExFat`, `ExFatFile` | FatFs on exFAT: chains whose fragments are written late, and the files that own them |
| `Lfn` | FatFs: long file names in directory entries |
| `FatxFat`, `FatxFile` | the FATX library: FAT cache, allocator, files |
| `MidiVoices`, `MidiNotes`, `MidiClock` | the MIDI player: voice rings, the notes they play, timers and clock |
| `Gf2`, `Boot` | polynomials over bits; the checksum and the copy routine of the boot loader, and the checksum of FatFs |

How the model reads the code:

- **LZ4.** The 32-bit little-endian build with the fast decoding loop. The hash is any function
  of four bytes, so nothing depends on it. Capacities, over-copies and gotos are as in the code;
  comparisons of wrapped pointers have no counterpart, as positions are numbers. The decoder takes
  a zero offset and writes zeros for it, ignores the low nibble of the last token, and is laxer than
  the end-of-block conditions on its fast paths. So `DecompressGeneric` states two directions: what
  it returns is right, and what the format demands is accepted. An output of no bytes accepts
  only the block of one zero byte.
- **FatFs.** The volume is an array of sectors; `View` is the disk with the window laid over it.
  Powers of two appear as `%` and `/` instead of masks. The data area is kept in a field of its
  own beside the FAT. Disk transfers do not fail and calls do not overlap. An entry of value 1 in
  the FAT is the one internal error that remains, and it is modelled. How far a write or a seek
  gets is stated by the capacity, the file's own clusters and the free ones, which no operation
  changes.
- **exFAT.** `get_fat` answers for a cluster only once its link has been written or lies in the first
  fragment; `FileObject.GetFatFollows` says for every cluster exactly when. `f_lseek` writes what is
  waiting before it moves, and links wait only while the current cluster is the last one, so
  the question is never asked too early: that is the invariant behind `ExFatFile.Run`.
  The chain and bitmap follow sections 6.4.2.2 and 7.1.5 of Microsoft's exFAT file system
  specification.
- **FATX.** The FAT is the disk with the cache laid over it, entry by entry. The device has a
  position, which reading the FAT moves, so each transfer must be preceded by a seek. `fatx_write`
  of no bytes past the end still makes the file one byte longer than the offset, and the contract
  says so. The static cursor of the allocator starts at 2.
- **Long names.** `ff_wtoupper` is any function that maps only 0 to 0.
- **MIDI.** Pointers are numbers of 41 nodes in two arrays. `ResetControllers` lifts the pedal
  without releasing voices. `Timer_Set` starts the ticks afresh while the timer of the
  samples goes on, so the music may begin at any phase of it. The clock is exact for all of these
  if and only if no step of the ticks is less than one of the samples (`MidiClock.ExactlyWhenSteady`);
  a tick of 21.90 microseconds with samples of 22.00 already falls behind.
- **Formats.** What lies on a disk or in a stream is also stated in bytes and numbers, apart from the
  functions that the code uses: `FatWindow.RawEntry`, `Lfn.PartBytes`, `Lz4Write.SequenceInBytes`,
  `FatFile.IsByte`, `ExFatFile.File.Stored`, and `Boot.IsCrc32`, which gives the polynomial by its exponents.
- **Other files.** `FatFile.OtherFile` and `FatxFile.OtherContents` turn what writing leaves alone
  into a statement about any other file of the volume.

## Model

| member | source | states |
|---|---|---|
| Lz4Theory.ParseOfEncode | lib/lz4/lz4.c:1125-1186 | Reading a block that was written gives back exactly its sequences and last literals. |
| Lz4Theory.EncodeOfParse | lib/lz4/lz4.c:2217-2356 | Every input that can be read is what writing would give, up to the unused nibble of the last token. |
| Lz4Theory.CopyMatchUnique | lib/lz4/lz4.c:1944-1950 | Any bytes that repeat the byte `offset` before them are the match, so a fast copy need only be shown to repeat. |
| Lz4Theory.CopyMatchRepeats | lib/lz4/lz4.c:1944-1950 | The byte-at-a-time match does repeat, also when it overlaps itself. |
| Lz4Copy.SpreadIsMultiple | lib/lz4/lz4.c:476-477 | The two overlap tables turn every offset below 8 into a multiple of it that is at least 8. |
| Lz4Copy.SpreadRepeats | lib/lz4/lz4.c:2408-2435 | Copying from that multiple gives the pattern of the offset. |
| Lz4Copy.Prologue | lib/lz4/lz4.c:2408-2419 | The first eight bytes of an overlapping match and where the copy goes on from. |
| Lz4Copy.WildCopy8 | lib/lz4/lz4.c:466-472 | Copies in strides of 8 and says how far past the end it may write. |
| Lz4Copy.WildCopy32 | lib/lz4/lz4.c:523-532 | Copies in strides of 32, for distances of 16 or more. |
| Lz4Copy.WildCopy8In | lib/lz4/lz4.c:2112-2114 | The same from another buffer. |
| Lz4Copy.WildCopy32In | lib/lz4/lz4.c:2104-2108 | The same from another buffer. |
| Lz4Copy.CopyUsingOffsetBase | lib/lz4/lz4.c:497-518 | For offsets below 8 the result equals the self-overlapping byte copy. |
| Lz4Copy.CopyUsingOffset | lib/lz4/lz4.c:536-574 | The variant with patterns for offsets 1, 2 and 4 has the same result. |
| Lz4Decode.ReadVariableLength | lib/lz4/lz4.c:1980-2016 | The sum of the length bytes, or an error exactly for input that ends, passes the limit or overflows half the 32-bit range. |
| Lz4Decode.AcceptableNext | lib/lz4/lz4.c:247-251 | What the end-of-block conditions of the LZ4 block format leave after every sequence of an acceptable block. |
| Lz4Decode.HoldsMatch | lib/lz4/lz4.c:2168-2198 | A match copied from dictionary, prefix and output extends the history as the format says, across the seam and over itself. |
| Lz4Decode.CopyFromDictionary | lib/lz4/lz4.c:2360-2386 | A match that starts in the external dictionary, with its part in the output. |
| Lz4Decode.FastLiterals | lib/lz4/lz4.c:2088-2117 | Token and literals of the fast loop: the literals are in place, or the state for the safe loop is, or the block is not acceptable. |
| Lz4Decode.FastMatch | lib/lz4/lz4.c:2119-2211 | Match of the fast loop: over-copies stay in the output buffer and leave what has been decoded alone. |
| Lz4Decode.SafeToken | lib/lz4/lz4.c:2218-2272 | The two-stage shortcut and the plain way to the literals keep the same state. |
| Lz4Decode.SafeLiterals | lib/lz4/lz4.c:2277-2336 | Literals near the end: the last ones, an offset to come, or a block that is not acceptable. |
| Lz4Decode.SafeMatch | lib/lz4/lz4.c:2355-2437 | Match near the end, with the restricted over-copies. |
| Lz4Decode.FastLoop | lib/lz4/lz4.c:2085-2211 | The fast loop ends in a state from which the safe loop can go on. |
| Lz4Decode.SafeLoop | lib/lz4/lz4.c:2217-2447 | The main loop from any of its entry labels. |
| Lz4Decode.DecompressGeneric | lib/lz4/lz4.c:2025-2447 | A result r >= 0 means the r bytes are exactly what the block expands to after its history, and nothing outside the buffer changed; an acceptable block is never rejected. |
| Lz4Unsafe.ReadLongLength | lib/lz4/lz4.c:1854-1860 | Sum and position after the length bytes. |
| Lz4Unsafe.CopyBytewise | lib/lz4/lz4.c:1918-1952 | The byte-at-a-time copy from dictionary and output is the match. |
| Lz4Unsafe.DecompressUnsafe | lib/lz4/lz4.c:1872-1966 | On a well-formed block of the given size the result is non-negative exactly when the block keeps the end conditions and its history, and the output is its expansion; of a block that expands to more, a successful call gives the beginning. |
| Lz4Unsafe.BothDecoders | lib/lz4/lz4.c:1890-1966 | The optimised decoder refines the byte-wise one: same bytes whenever both succeed, and both do on acceptable blocks. |
| Lz4Count.MultipliedByLowByte | lib/lz4/lz4.c:623-624 | The multiplication form of the byte count, for every non-zero difference. |
| Lz4Count.CountedByLowByte | lib/lz4/lz4.c:621 | The trailing-zero form of the byte count. |
| Lz4Count.CommonBytesOfDifference | lib/lz4/lz4.c:581-677 | The count of a difference of two words is the number of agreeing leading bytes, in both forms. |
| Lz4Count.EqualBytesOfDifference | lib/lz4/lz4.c:682-694 | What the difference of two words of the input says about their bytes. |
| Lz4Count.Count | lib/lz4/lz4.c:682-705 | Word differences, then two bytes, then one, give the longest common prefix below the limit. |
| Lz4Write.SequenceInBytes | lib/lz4/lz4.c:1113-1227 | The bytes of a sequence in numbers: token nibbles, length bytes, literals and the offset, low byte first. |
| Lz4Write.PutLiterals | lib/lz4/lz4.c:1125-1136 | Token, length bytes and literals, and how far the strides of the copy reach past them. |
| Lz4Write.PutOffset | lib/lz4/lz4.c:1161-1164 | Two bytes, low one first. |
| Lz4Write.PutMatchLength | lib/lz4/lz4.c:1215-1225 | The run of length bytes, written four at a time. |
| Lz4Write.PutLast | lib/lz4/lz4.c:1320-1331 | Token, length bytes and last literals. |
| Lz4Compress.Search | lib/lz4/lz4.c:1021-1103 | For any hash function a match that is found is an earlier position within the window whose four bytes agree, and every table entry stays an earlier position. A match the table holds for the first position is taken there. |
| Lz4Compress.CatchUp | lib/lz4/lz4.c:1106-1111 | Moving both positions back keeps the distance and the agreement up to the position filled in, and stops only at the last literal, at the start of the input or at bytes that differ. |
| Lz4Compress.EmitLiterals | lib/lz4/lz4.c:1113-1138 | Literals are written, or the output is given up, or the last literals follow, within the capacity. |
| Lz4Compress.FitMatch | lib/lz4/lz4.c:1189-1213 | The match length that still fits: the shortened one uses the budget exactly. |
| Lz4Compress.SequenceCost | lib/lz4/lz4.c:1215-1227 | No sequence costs more than 256/255 of the input it covers. |
| Lz4Compress.PastFilled | lib/lz4/lz4.c:1197-1208 | A full match always ends after the positions already in the table. |
| Lz4Compress.ClearHashes | lib/lz4/lz4.c:1197-1208 | After a shortened match no table entry is ahead of the position. |
| Lz4Compress.MeasureMatch | lib/lz4/lz4.c:1183-1213 | The length measured is the longest possible one, or in fill mode what the budget allows; the table no longer holds positions after it. |
| Lz4Compress.EmitMatch | lib/lz4/lz4.c:1140-1227 | One sequence from the anchor on is written, with the longest match there is (in fill mode perhaps a shorter one), or the token is rewound, or the output is given up. |
| Lz4Compress.TestNext | lib/lz4/lz4.c:1246-1297 | The position after a match starts another match exactly when the table holds one for it. |
| Lz4Compress.FillRun | lib/lz4/lz4.c:1309-1313 | The last run that fills the budget, with its own length bytes, never fewer than the format needs. |
| Lz4Compress.FillRunIsShorter | lib/lz4/lz4.c:1307-1313 | The adapted run is never longer than what is left of the input. |
| Lz4Compress.PutLastLiterals | lib/lz4/lz4.c:1304-1337 | The finished bytes are a block for exactly the input consumed. |
| Lz4Compress.Matches | lib/lz4/lz4.c:1140-1297 | Consecutive matches without literals between them. |
| Lz4Compress.Sequences | lib/lz4/lz4.c:1004-1300 | The main loop writes the sequences of a block that covers the input so far. |
| Lz4Compress.CompressGeneric | lib/lz4/lz4.c:932-1378 | The result is a block for the input, within the capacity and the size bound, meeting the end conditions; 0 only for input too large, a limited budget below n + n/255 + 16, or a budget to fill of no byte. |
| Lz4Compress.CompressFast | lib/lz4/lz4.c:1384-1412 | Result at most n + n/255 + 16, and never 0 when the output has that room. |
| Lz4Compress.CompressDestSize | lib/lz4/lz4.c:1483-1515 | Never more than the target; the block is for exactly the reported part of the input, which is all of it when the target has the bound. |
| Lz4RoundTrip.RoundTrip | lib/lz4/lz4.c:1455-1470 | For every input up to the maximum, hash function, address and acceleration, decoding into exactly the input size gives the input. |
| Lz4RoundTrip.FillRoundTrip | lib/lz4/lz4.c:1508-1527 | Decoding a fill-output block into the reported count gives that prefix of the source. |
| Lz4RoundTrip.BlockIsAcceptable | lib/lz4/lz4.c:247-251 | A written block meets what the decoder demands. |
| Lz4RoundTrip.SameHistorySameOutput | lib/lz4/lz4.c:2168-2198 | The same preceding bytes give the same output, however they are split between dictionary and prefix. |
| ExFat.Volume.FindBitmap | lib/fatfs/ff.c:1304-1335 | The first free cluster from the given one on, going round, and 0 exactly when there is none. |
| ExFat.Volume.TakeCluster | lib/fatfs/ff.c:1344-1372 | Marks one cluster in use and reports one that already is. |
| ExFat.FirstFragmentFilled | lib/fatfs/ff.c:1380-1395 | Filling the first fragment turns an object just fragmented into a fragmented one with the same clusters. |
| ExFat.LastFragmentFilled | lib/fatfs/ff.c:1403-1418 | Filling the last fragment links it and puts the given value at its end. |
| ExFat.AppendedNext | lib/fatfs/ff.c:1562-1565 | Growing by the adjacent cluster needs no FAT access, in every state. |
| ExFat.AppendedElsewhere | lib/fatfs/ff.c:1557-1569 | Growing by another cluster keeps the record of the chain, in every state. |
| ExFat.AllWritten | lib/fatfs/ff.c:1403-1418 | Ending the last fragment puts its links and the end of the chain on the FAT, in every state, and touches no entry outside the chain. |
| ExFat.FileObject.GetFatFollows | lib/fatfs/ff.c:1192-1222 | Exactly when following a cluster finds its successor: always when nothing waits to be written, and else for the last cluster and inside the first fragment. |
| ExFat.FileObject.FillFirstFrag | lib/fatfs/ff.c:1380-1395 | State and FAT after filling the first fragment. |
| ExFat.FileObject.FillLastFrag | lib/fatfs/ff.c:1403-1418 | State and FAT after filling the last fragment. |
| ExFat.FileObject.Attach | lib/fatfs/ff.c:1554-1570 | A new cluster joins the chain in states contiguous, just fragmented and fragmented. |
| ExFat.FileObject.CreateChain | lib/fatfs/ff.c:1524-1615 | Follows an existing link, or appends the first free cluster from the end of the chain on (from the last one taken for a new chain); 0 only when no cluster is free; a valid free count stays right. |
| ExFat.FileObject.EndLastFrag | lib/fatfs/ff.c:4451-4455 | Ending the last fragment with the current cluster keeps the record of the chain, also between the fragmenting of a file and its first sync. |
| ExFat.FileObject.WriteFragments | lib/fatfs/ff.c:4156-4161 | Both fills in turn leave a FAT chain, or a contiguous object with the FAT untouched. |
| ExFatFile.Conservation | lib/fatfs/ff.c:1546-1612 | What a file gains in clusters the volume loses in free ones. |
| ExFatFile.File.constructor | lib/fatfs/ff.c:3861-3867 | A file just opened: pointer at the start, nothing waiting. |
| ExFatFile.File.Stretch | lib/fatfs/ff.c:4548 | The next cluster of the chain, taken from the free ones if the chain ends; it is the last one whenever links wait to be written. |
| ExFatFile.File.Reach | lib/fatfs/ff.c:4040-4063 | At a boundary the cluster of the pointer becomes the current one; fails only at the end of the last cluster with none free. |
| ExFatFile.File.WriteAll | lib/fatfs/ff.c:4039-4122 | The loop moves the pointer through the clusters of the chain and stops early only when the volume is full. |
| ExFatFile.File.Write | lib/fatfs/ff.c:4014-4126 | Moves the pointer by exactly the bytes asked for, or up to the capacity: own and free clusters. |
| ExFatFile.File.Follow | lib/fatfs/ff.c:3940-3959 | A read finds the next cluster, as nothing waits before the end of the file. |
| ExFatFile.File.Read | lib/fatfs/ff.c:3914-4003 | Moves the pointer by exactly the bytes asked for, or up to the end of the file. |
| ExFatFile.File.Fill | lib/fatfs/ff.c:4451-4455 | What is waiting is written first: the current cluster is the last one then. |
| ExFatFile.File.NextCluster | lib/fatfs/ff.c:4540-4560 | One cluster further, with the size brought up to date before the chain is followed. |
| ExFatFile.File.SeekFrom | lib/fatfs/ff.c:4540-4572 | From a cluster of the chain to the target, or to the end of the last cluster when none is free. |
| ExFatFile.File.Seek | lib/fatfs/ff.c:4433-4572 | The pointer is at the target, or at the size in read-only mode, or at the capacity. |
| ExFatFile.File.Sync | lib/fatfs/ff.c:4135-4164 | After a sync the FAT holds the chain, or the clusters are consecutive and the status says so. |
| ExFatFile.Run | lib/fatfs/ff.c:3914-4572 | Any writes, reads, seeks and syncs on any described file put the pointer and the size exactly where mode, size and capacity say, keep the record of the chain, take only free clusters, leave the rest of the volume alone, and a sync at the end leaves the whole chain on the volume. |
| FatWindow.PutThenGet | lib/fatfs/ff.c:1239-1288 | An entry is read back as stored, in all three types. |
| FatWindow.PutKeepsOthers | lib/fatfs/ff.c:1239-1288 | All other entries stay, including FAT12 neighbours that share a byte. |
| FatWindow.FatFs.SyncWindow | lib/fatfs/ff.c:1055-1073 | Writing the window back does not change the disk as seen, and keeps the second FAT equal to the first. |
| FatWindow.FatFs.MoveWindow | lib/fatfs/ff.c:1077-1098 | Moving the window does not change the disk as seen. |
| FatWindow.EntryInBytes | lib/fatfs/ff.c:1173-1192 | What the table of entries says in terms of the bytes of the first FAT, for all three types. |
| FatWindow.FatFs.GetFat | lib/fatfs/ff.c:1161-1229 | The entry of the table, in bytes: FAT12 entries 2k and 2k + 1 in bytes 3k to 3k + 2, FAT16 and FAT32 entries low byte first; 1 for a cluster number out of range; entries may straddle sectors. |
| FatWindow.FatFs.PutFat | lib/fatfs/ff.c:1239-1288 | Changes exactly one entry of the table, whose bytes then hold the value, keeps the top four bits of FAT32, and touches nothing outside the FATs. |
| FatChain.NewChain | lib/fatfs/ff.c:1600-1603 | A first cluster joins the chains of a volume. |
| FatChain.GrownChain | lib/fatfs/ff.c:1600-1603 | A chain grown by a free cluster stays disjoint from all others, and all stay terminated. |
| FatChain.RemoveIsCleared | lib/fatfs/ff.c:1429-1515 | Removing from the first cluster of a chain frees exactly that chain. |
| FatChain.RemovedChain | lib/fatfs/ff.c:1429-1515 | The other chains are as before. |
| FatChain.ShortenedChain | lib/fatfs/ff.c:1429-1515 | Removing a tail ends the chain before it and leaves the others as before. |
| FatChain.FreeCountBound | lib/fatfs/ff.c:1462-1466 | The free count cannot pass the number of clusters. |
| FatChain.AfterMeetsAll | lib/fatfs/ff.c:1587-1599 | Going round from a cluster meets every cluster exactly once. |
| FatChain.Allocator.TryNext | lib/fatfs/ff.c:1574-1586 | When a chain is stretched, the cluster next to its end if that is free, and else where to search from. |
| FatChain.Allocator.FindFree | lib/fatfs/ff.c:1587-1599 | The first free cluster in cyclic order, unless an invalid entry comes before it; 0 only when none is free. |
| FatChain.Allocator.CreateChain | lib/fatfs/ff.c:1524-1615 | Follows the link of a cluster, or links exactly one free cluster: the next one if free, else the first in cyclic order after the last one taken; 0 only when none is free, 1 only for a bad link or a bad entry; a valid free count stays right. |
| FatChain.Allocator.RemoveChain | lib/fatfs/ff.c:1429-1515 | Frees exactly what the walk meets, for any two cluster numbers; ends on any FAT, also a cyclic one, and keeps the free count right unless the previous cluster was free. |
| FatChain.Step | lib/fatfs/ff.c:1429-1615 | Any allocation or removal keeps all chains of a volume disjoint, acyclic and terminated, takes exactly the cluster that the search finds or frees exactly the removed ones, and fails only when none is free or an entry is bad. |
| FatChain.GrowInPlace | lib/fatfs/ff.c:1574-1586 | A chain that grows while the clusters next to its end are free grows by just these, in order. |
| FatFile.StoredSector | lib/fatfs/ff.c:4067-4070 | Storing a sector of the data area changes that sector of the file and no other, unless the buffer covers it. |
| FatFile.SplicedSector | lib/fatfs/ff.c:4111-4119 | Bytes put into one sector are bytes put into the file. |
| FatFile.SplicedSectors | lib/fatfs/ff.c:4076-4097 | The same for a direct transfer of whole sectors. |
| FatFile.StartOfCluster | lib/fatfs/ff.c:4522-4526 | Rounding the pointer down to clusters agrees with its cluster number. |
| FatFile.File.constructor | lib/fatfs/ff.c:3861-3867 | A file just opened: pointer at the start, nothing in the buffer. |
| FatFile.File.ContentAt | lib/fatfs/ff.c:1144-1152 | Byte i of the contents lies in the cluster, sector and place of the data area that its position says. |
| FatFile.File.Flush | lib/fatfs/ff.c:4067-4070 | Writing the dirty buffer back does not change the file as seen. |
| FatFile.File.Hold | lib/fatfs/ff.c:3979-3991 | Bringing a sector into the buffer does not change the file as seen. |
| FatFile.File.FollowCluster | lib/fatfs/ff.c:3944-3963 | At a boundary the current cluster becomes that of the pointer. |
| FatFile.File.DirectRead | lib/fatfs/ff.c:3960-3977 | A direct read gives the sectors of the file, with the dirty buffer put in place. |
| FatFile.File.ReadChunk | lib/fatfs/ff.c:3941-4000 | One round gives the next bytes at the pointer. |
| FatFile.File.Read | lib/fatfs/ff.c:3914-4002 | The bytes at the pointer, up to the end of the file; the contents stay. |
| FatFile.Conservation | lib/fatfs/ff.c:1524-1615 | What a file gains in clusters the volume loses in free ones. |
| FatFile.SameBadEntries | lib/fatfs/ff.c:1524-1615 | Growing a file neither makes nor removes bad entries. |
| FatFile.File.Stretch | lib/fatfs/ff.c:4055 | The next cluster of the chain, which is made longer if need be; 0 only when no cluster is free, 1 only with a bad entry in the FAT. |
| FatFile.File.ReachCluster | lib/fatfs/ff.c:4040-4063 | At a boundary the cluster of the pointer is found or allocated, and the contents stay; 0 only at the end of the last cluster with none free, 1 only with a bad entry. |
| FatFile.File.DirectWrite | lib/fatfs/ff.c:4076-4097 | Whole sectors replace those of the file and the buffer never disagrees with them. |
| FatFile.File.Fill | lib/fatfs/ff.c:4102-4109 | The sector to be written is loaded unless it lies past the end of the file. |
| FatFile.File.WritePart | lib/fatfs/ff.c:4111-4120 | A part of a sector is put into the contents through the dirty buffer. |
| FatFile.File.WriteChunk | lib/fatfs/ff.c:4039-4122 | One round puts the next bytes into the contents, or stops only on a full volume or with a bad entry. |
| FatFile.File.WriteAll | lib/fatfs/ff.c:4039-4122 | The loop writes all, or stops only on a full volume, or fails only with a bad entry. |
| FatFile.File.Write | lib/fatfs/ff.c:4014-4126 | The contents become the old ones with the bytes put at the pointer: exactly as many as the capacity of the volume and 4 GiB - 1 allow, unless a bad entry in the FAT aborts it; nothing but the own sectors and own or formerly free clusters is touched. |
| FatFile.File.StartSeek | lib/fatfs/ff.c:4518-4537 | A seek may start from the current cluster or the first, and is at the same place of the chain either way; it fails only on a full volume or with a bad entry. |
| FatFile.File.NextCluster | lib/fatfs/ff.c:4540-4560 | One cluster further, stretching the file if it is open for writing; it fails only on a full volume or with a bad entry. |
| FatFile.File.Seek | lib/fatfs/ff.c:4510-4588 | The pointer is at the target, clipped to the size in read-only mode and to the capacity of the volume and 4 GiB - 1 otherwise, unless a bad entry aborts it; old bytes stay. |
| FatFile.File.Sync | lib/fatfs/ff.c:4135-4152 | After a sync the data area alone holds the contents, except after an aborted operation on a file without other changes. |
| FatFile.OtherFile | lib/fatfs/ff.c:4014-4126 | A file whose chain shares no cluster keeps its chain and all its bytes. |
| FatFile.NeverFails | lib/fatfs/ff.c:3914-4588 | Over any run no operation is aborted unless the FAT has a bad entry. |
| FatFile.Run | lib/fatfs/ff.c:3914-4588 | In any interleaving of reads, writes, seeks and syncs every operation does exactly what it has to: a write all that fits, a read all there is, a seek to the target or as far as can be; each read gives at each offset what was last written there. |
| FatFile.AfterEvent | lib/fatfs/ff.c:3914-4588 | One more operation keeps the agreement between history and contents. |
| Lfn.PartInBytes | lib/fatfs/ff.c:1959-1984 | What an entry has to be, byte by byte. |
| Lfn.PutLfn | lib/fatfs/ff.c:1959-1984 | The 13 units of a part at their places, low byte first, with terminator, filling, number, last mark and checksum, byte by byte. |
| Lfn.PickableInBytes | lib/fatfs/ff.c:1921-1950 | Which entries are taken, byte by byte. |
| Lfn.MatchesInBytes | lib/fatfs/ff.c:1885-1914 | Which entries match, byte by byte. |
| Lfn.PickLfn | lib/fatfs/ff.c:1921-1950 | Which entries are taken, by their bytes, and the units in the buffer after each. |
| Lfn.CmpLfn | lib/fatfs/ff.c:1885-1914 | Which entries match, by their bytes, for any entry and any buffer. |
| Lfn.StoreRun | lib/fatfs/ff.c:2525-2538 | The entries of a name, the last part first, over any slots. |
| Lfn.ReadRun | lib/fatfs/ff.c:2347-2355 | The entries of a name are reassembled exactly, from any buffer and any state before. |
| Lfn.NameRoundTrip | lib/fatfs/ff.c:1921-1984 | Every name of 1 to 255 units is read back as it was stored. |
| Lfn.AgreementIsEquality | lib/fatfs/ff.c:1885-1914 | What the buffer holds after its terminator does not matter. |
| Lfn.PartMatches | lib/fatfs/ff.c:1885-1914 | What matching one part says about the name, also for lengths that are multiples of 13. |
| Lfn.FindRun | lib/fatfs/ff.c:2432-2440 | The whole run is accepted if and only if the names are equal after up-casing. |
| FatxFat.EntryTypes | lib/libfatx/fatx_fat.c:268-300 | What every entry means in both widths: the data entries are all between the free one and the sixteen highest, and only the end mark ends a chain. |
| FatxFat.Fatx.Flush | lib/libfatx/fatx_fat.c:113-139 | Invisible in the table. |
| FatxFat.Fatx.Populate | lib/libfatx/fatx_fat.c:141-188 | Invisible in the table. |
| FatxFat.Fatx.ReadFat | lib/libfatx/fatx_fat.c:193-225 | The entry last written. |
| FatxFat.Fatx.WriteFat | lib/libfatx/fatx_fat.c:230-263 | Changes exactly one entry, cut to its width. |
| FatxFat.Fatx.GetNextCluster | lib/libfatx/fatx_fat.c:331-351 | The next cluster, or an error that leaves the number alone. |
| FatxFat.Fatx.FreeClusterChain | lib/libfatx/fatx_fat.c:383-410 | Ends on any contents of the FAT and frees what the walk meets. |
| FatxFat.FreedIsCleared | lib/libfatx/fatx_fat.c:383-410 | From the first cluster of a chain it frees exactly that chain. |
| FatxFat.Fatx.RoundMeetsAll | lib/libfatx/fatx_fat.c:426-456 | Going round once from the cursor meets every cluster exactly once. |
| FatxFat.Fatx.FindAvailable | lib/libfatx/fatx_fat.c:426-456 | Reads the entries from the cursor round, stops at the first available one, and fails only after all when none is. |
| FatxFat.Fatx.AllocCluster | lib/libfatx/fatx_fat.c:415-478 | The first available cluster from the cursor on becomes a chain of its own, zeroed if asked. |
| FatxFat.Fatx.AttachCluster | lib/libfatx/fatx_fat.c:483-519 | Only the end of a chain can be extended. |
| FatxFat.GrownWorld | lib/libfatx/fatx_fat.c:415-519 | A chain extended by an available cluster stays disjoint from all others. |
| FatxFat.CutWorld | lib/libfatx/fatx_file.c:384-395 | A chain cut off keeps its first part and leaves all others alone. |
| FatxFat.Fatx.Extend | lib/libfatx/fatx_fat.c:415-519 | Allocating and attaching extend one chain by one cluster. |
| FatxFile.StoredPatched | lib/libfatx/fatx_file.c:250-262 | Bytes put into one cluster are bytes put into the file. |
| FatxFile.FindCluster | lib/libfatx/fatx_file.c:28-86 | The cluster of a position up to the end of the file; fails only past the end, at the end of the chain, or when no cluster is available. |
| FatxFile.Read | lib/libfatx/fatx_file.c:99-193 | The slice of the contents clipped to the size. |
| FatxFile.WriteClusters | lib/libfatx/fatx_file.c:239-294 | The loop puts the bytes into the contents as far as clusters are available. |
| FatxFile.Write | lib/libfatx/fatx_file.c:200-308 | Replaces exactly the bytes from the offset on and keeps all others; the size grows as needed. |
| FatxFile.WriteThenRead | lib/libfatx/fatx_file.c:99-308 | A read after a write gives the bytes written. |
| FatxFile.WalkTo | lib/libfatx/fatx_file.c:358-382 | The walk to the last cluster that is needed; clusters added on the way are all zeros. |
| FatxFile.CutEntries | lib/libfatx/fatx_file.c:384-395 | Freeing the rest and marking the end touch only the file itself. |
| FatxFile.Truncate | lib/libfatx/fatx_file.c:347-403 | Leaves exactly the fewest clusters that hold the size, at least one; the common part stays; added clusters are all zeros, released ones are available. |
| FatxFile.OtherContents | lib/libfatx/fatx_file.c:200-308 | No other file sees a change. |
| MidiVoices.Unlinked | lib/midi/midiplay.c:176-177 | Taking a voice out keeps both directions of its ring. |
| MidiVoices.Appended | lib/midi/midiplay.c:179-182 | Putting a voice at the end of a ring. |
| MidiVoices.Pushed | lib/midi/midiplay.c:277-280 | Putting a voice at the front of a ring. |
| MidiVoices.OneRing | lib/midi/midiplay.c:172-183 | A change of one ring leaves the other sixteen alone. |
| MidiVoices.Player.VoiceOff | lib/midi/midiplay.c:172-183 | From its place in a channel to the end of the unused voices. |
| MidiVoices.Player.AllSoundOff | lib/midi/midiplay.c:190-197 | All voices of a channel are released in order. |
| MidiVoices.Player.EventNoteOff | lib/midi/midiplay.c:204-227 | Exactly the matching voices are released or marked while iterating. |
| MidiVoices.Player.EventNoteOn | lib/midi/midiplay.c:249-288 | The voice unused for longest becomes the first of the channel. |
| MidiVoices.Player.EventMuteNotes | lib/midi/midiplay.c:290-311 | All voices are released, or marked under the pedal. |
| MidiVoices.Player.EventSustain | lib/midi/midiplay.c:346-370 | Exactly the marked voices are released when the pedal goes up. |
| MidiVoices.Player.Init | lib/midi/midiplay.c:936-955 | All 24 voices are unused, in order, and the channels empty. |
| MidiVoices.NothingLost | lib/midi/midiplay.c:204-227 | Those that stay and those that go make up the ring. |
| MidiVoices.OrderKept | lib/midi/midiplay.c:204-227 | Those that stay keep their order. |
| MidiVoices.Queue | lib/midi/midiplay.c:172-288 | Unused voices wait in a queue. |
| MidiVoices.QueueOfRun | lib/midi/midiplay.c:172-370 | Over any run voices are given out in the order in which they became unused. |
| MidiNotes.StepPlays | lib/midi/midiplay.c:172-370 | Whatever the event, each channel plays exactly the notes that sound by the events alone: each voice carries the number of the note that was given it, and is marked exactly when the note was ended under the pedal since it was last played. |
| MidiNotes.EndedNotesAreSilent | lib/midi/midiplay.c:204-227 | With the pedal up a note that is ended leaves no voice with its number. |
| MidiNotes.Play | lib/midi/midiplay.c:172-370 | In every reachable state the 24 voices are partitioned among 17 well-formed rings, the unused ones wait in order, and the channels play exactly the notes that sound. |
| MidiClock.NoDrift | lib/midi/midiplay.c:142-162 | After k steps the error of the sum is exactly what the accumulator holds. |
| MidiClock.SumOfFresh | lib/midi/midiplay.c:142-162 | k steps of a timer just set sum to k times the ratio, rounded down. |
| MidiClock.Timer.Set | lib/midi/midiplay.c:156-162 | Rate, remainder and cleared accumulator. |
| MidiClock.Timer.Update | lib/midi/midiplay.c:142-154 | One step, with the carry. |
| MidiClock.Clock.Begin | lib/midi/midiplay.c:543-547 | The clock as the tracks start, with the sample timer in any phase. |
| MidiClock.Clock.Sample | lib/midi/midiplay.c:1091-1098 | A sample and at most one tick, as the function of the two timers says. |
| MidiClock.Clock.Output | lib/midi/midiplay.c:1085-1114 | Any number of samples: with steady ticks the count is the least number whose time reaches that of the samples. |
| MidiClock.LeastTicks | lib/midi/midiplay.c:1093-1098 | The numbers of ticks that reach the time of the samples are just those from the clock on. |
| MidiClock.SteadyIsInStep | lib/midi/midiplay.c:1091-1098 | If no step of the ticks is less than one of the samples, the clock is exact after every number of samples. |
| MidiClock.ExactlyWhenSteady | lib/midi/midiplay.c:1091-1098 | The clock is exact after all samples, whenever the music begins, if and only if no step of the ticks is less than one of the samples. |
| MidiClock.FallsBehind | lib/midi/midiplay.c:1091-1098 | Otherwise it is behind at the first sample when the sample timer is about to carry. |
| Boot.StepIsBijective | lib/xbox/2bboot.c:138-142 | The step of the register can be undone and reaches every value. |
| Boot.FormsAgree | lib/fatfs/ff.c:3221-3234 | Adding a byte bit by bit and adding it at once are the same. |
| Boot.RegistersAgree | lib/fatfs/ff.c:3221-3234 | On every message both forms give the same register. |
| Gf2.RemainderIsUnique | lib/xbox/2bboot.c:132-146 | A polynomial with bits as coefficients has one remainder. |
| Boot.StepDivides | lib/xbox/2bboot.c:138-142 | A step of the register is a step of the division by the CRC-32 polynomial, given by its exponents. |
| Boot.CrcIsRemainder | lib/xbox/2bboot.c:132-146 | The checksum is the inverse of the remainder of the message, first 32 bits inverted, lowest bit of a byte first. |
| Boot.CrcIsUnique | lib/xbox/2bboot.c:132-146 | No other value is the CRC-32 of the message. |
| Boot.CheckedMessage | lib/xbox/2bboot.c:154-159 | A message followed by its own checksum, low byte first, has the checksum 2144DF1C. |
| Boot.ByteIsRemainder | lib/fatfs/ff.c:3221-3234 | Adding a byte to a register takes the remainder of both. |
| Boot.BootCalculateCrc32 | lib/xbox/2bboot.c:132-146 | The CRC-32 of the image: the inverted remainder of the division of polynomials. |
| Boot.Crc32 | lib/fatfs/ff.c:3221-3234 | The byte step of FatFs with its moving bit mask leaves the remainder of register and byte. |
| Boot.HeaderChecksum | lib/fatfs/ff.c:3249-3252 | The checksum of a GPT header is the CRC-32 of the header with its own field zeroed. |
| Boot.RegisterOfWord | lib/xbox/2bboot.c:135-144 | Up to four bytes are the same as one word. |
| Boot.WordIsInjective | lib/xbox/2bboot.c:135-144 | Different bytes are different words. |
| Boot.SameChecksum | lib/xbox/2bboot.c:132-146 | Images that differ at most in four consecutive bytes and agree in the checksum are the same. |
| Boot.ShortErrorsAreFound | lib/xbox/2bboot.c:132-146 | Images that differ only there never have the same checksum. |
| Boot.BootMemmove | lib/xbox/2bboot.c:103-119 | The copy is right however source and destination overlap. |

## Left out

- Hardware access, drivers, USB, video, audio buffers and other plumbing.
- LZ4: partial decoding, decoding in place, streaming and dictionary compression, obsolete entry points, 64-bit and big-endian variants.
- Lz4Decode.DecompressGeneric: does not say exactly which blocks outside the end-of-block conditions are still taken, because that differs between its fast and safe paths.
- Lz4Decode.SafeLiterals: the branch for partial decoding is not modelled.
- Lz4Decode.SafeMatch: the branch for partial decoding is not modelled, and the comparisons that guard against pointers that wrap around have no counterpart.
- Lz4Unsafe.DecompressUnsafe: demands a well-formed block that expands to no less than the given size, as the code trusts its caller for both.
- Lz4Copy.Copy: `memcpy` is a byte loop.
- FatFs: `f_mkfs`, `f_expand`, `f_truncate`, fast seek, locks, character sets, mounting and directories apart from long names.
- ExFat.Volume.FindBitmap: stretches of one cluster only, the only length asked for here; the bitmap is one flag for each cluster, not packed bits.
- ExFat.FileObject.CreateChain: asked only about clusters that `get_fat` can follow, which `ExFatFile.File.Sound` guarantees; `remove_chain` on exFAT volumes is not modelled.
- ExFatFile.File.Write: the data themselves are not modelled on exFAT volumes; the sectors of one cluster are taken together, as they do not affect the allocation.
- FatFile.File.Write: bytes written before a bad FAT entry stops the operation stay written, and the file object then refuses further transfers.
- FatFile.File.Sync: the data part only; the directory entry and FSINFO are not part of this model.
- FatFile.File.constructor: opening by path is not part of this model; the chain and the size are given.
- FatFile.Run: the bytes of a gap made by seeking past the end are unspecified, as in the code.
- Lfn.FindRun: the checksum of the short name that follows is taken as given.
- FatxFat.Fatx.ReadFat: entries are numbers, not little-endian bytes, on disk and in the cache alike.
- FatxFat.Fatx.WriteFat: entries are numbers, as for reading.
- FatxFat.Fatx.SeekCluster: only clusters that hold data; clusters 0 and past the last one are errors.
- FatxFat.Fatx.FindAvailable: the cursor is taken to start in range, as the static variable does for one volume.
- FatxFile.Write: attributes are a record passed in and out; path lookup, directories and dates are not modelled. Size and offset are unbounded.
- MidiVoices.Player.EventNoteOn: volume, pan, frequency and the synthesiser calls are not modelled.
- MidiClock.Clock.Output: events are reduced to the count of ticks at a constant tempo; the samples themselves are not modelled.
- Boot.HeaderChecksum: the other tests of the GPT header are not modelled.
