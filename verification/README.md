# Verified kernels of frog2k-linux

This project models the parts of frog2k-linux that compute something one can be wrong about
without any hardware at hand, and proves what they promise. To verify the project, use
`dafny verify dfyconfig.toml`.

| modules | part of the system |
|---|---|
| `Resampler`, `ResamplerCode` | the stereo-to-mono fixed-point resampler with its unity, 16-bit and 64-bit paths |
| `Loader`, `Elf`, `LoaderVerify`, `LoaderReadback`, `FatLog`, `FatBytes` | the Linux loader: ELF scan, overlapping segment move, DTB placement, readback repair, boot log in a FAT file |
| `CacheModel`, `CacheAges`, `CacheHoles`, `CacheCode`, `Hotspot` | the LRU cache simulator and its open-addressing PC table |
| `GeNode`, `GeBuild`, `GeBatch`, `GeDraw`, `GeBlit`, `GeClip` | graphics-engine command nodes: serializer, hand-written builders, batching, outlines, blits, clipping |
| `AudioRing`, `AudioRingCode` | the audio DMA ring with its withheld guard |
| `PauseHandshake`, `PauseResponse` | display ownership between powerd and the screen service |
| `Retained` | the progress ring that one boot writes and the next one reads |
| `Logd`, `LogdWindow` | the bounded RAM journal of the log service |
| `Crc`, `CrcCheck`, `AsdPack` | CRC-32/MPEG-2 and the firmware image packer |
| `CArithmetic`, `Options` | fixed-width C arithmetic over unbounded integers, a missing value |

How the model is built: a specification by functions on values comes first, and the properties
are proved about it for every input, run or interleaving. Where the code updates fields, arrays
or globals, a class or a method with loops does the same in place and is proved to follow the
specification step by step. Integers are unbounded, and conversions, wrap-around and C's
truncating division are written out where they occur. Pointers that the code checks for NULL
are taken to be present. Outcomes of input and output (failed writes, refused submissions,
missing disk sectors, the progress of the DMA engine, the order in which two processes run) are
inputs of the model, so the theorems hold for all of them.

What the proofs found, where code and comments or expectations part ways (the code is followed):

- `hc15xx_resampler_push_stereo_s16` has room for one output only. With any output rate above the
  input rate the phase creeps up until a frame would close two output instants; that push is
  refused, and so is every later one. Pushing keeps up exactly when the output rate is not above
  the input rate (`ResamplerCode.PushKeepsUpIff`, `ResamplerCode.PushStallsIff`).
- The cache simulator calls its LRU state exact. Without invalidation it is, for good with one way
  and otherwise up to the 2^32nd access or as many accesses as there are ways, and not beyond
  (`CacheAges.LawUpToIff`). With invalidations the hits are those of an LRU cache exactly up to
  the first access whose line lies behind an invalid way (`CacheHoles.HitsAgreeIff`).
- The readback rereads the source after the move. It leaves a finished load alone exactly when the
  load gave no byte it had read another value (`LoaderReadback.WholeReadbackQuietIff`); for one
  overlapping move that means the overwritten part repeats with the distance of the move
  (`LoaderVerify.ReadbackKeepsMoveIff`).
- The comment at boot/linux-loader.c:1623-1629 says the copy uses the uncached alias; the code
  below it uses the cached one. The model has one view of RAM, so the proofs hold for either.
- The 64-byte guard of the audio ring protects rings above 64 bytes; `configure_ring` accepts
  smaller ones, where a full ring looks empty (`AudioRing.GuardWorksIff`).
- Neither a failed engine drain nor a stop request lets a frame through while powerd owns the
  display. A timeout of `pause_screen` does, exactly when it strikes while the screen is
  acknowledging and has not been stopped (`PauseHandshake.TimeOutIsFatalIff`). A stop request does
  make the screen clear its off-screen surface once more with the shared engine
  (`PauseHandshake.StopDisturbs`).
- A resume followed by a new pause before the screen has polled goes unnoticed: the screen stays in
  its parking loop, the marker has been removed, and the second pause times out. A pause attempt is
  answered exactly when the screen has left that loop by then (`PauseResponse.PauseSucceedsIff`,
  `PauseResponse.QuickPauseIsUnheard`).
- In a batch, a node larger than the queue is refused without failing the batch, so the rest is
  still submitted (`GeBatch.CompleteIffNoneOversized`).
- A lazy writer that fills the last slot of the retained ring followed by an eager one makes the
  dump lose 1023 marks (`Retained.DumpCompleteIff`, `Retained.LazyThenEagerLosesMarks`).
- An append larger than the log buffer loses buffered bytes without counting them
  (`Logd.AccountingIsCompleteIff`), and it overtakes them exactly when it goes straight to an open
  file after a failed flush (`Logd.OrderKeptIff`).
- The packer stores a 64-bit payload size in 32 bits, the checker compares all 64
  (`AsdPack.PackedPassesIff`).

## Model
| member | source | states |
|---|---|---|
| Resampler.FreshRunIsSignal | audio/hc15xx_resampler.c:20-55 | from a fresh state, n inputs give exactly 1 + floor((n-1)*out/in) outputs, and output j is the truncated linear interpolation of the input at time j*in/out; the final phase and previous sample are given too |
| Resampler.FreshCallIsSignal | audio/hc15xx_resampler.c:130-174 | one call keeps up with n inputs exactly when that many outputs fit the capacity, and then produces that signal |
| Resampler.ChunkingIsInvisible | audio/hc15xx_resampler.c:90-175 | a stream cut into any chunks whose capacities do not bind gives the output and state of one unlimited call |
| Resampler.RunAllConcat | audio/hc15xx_resampler.c:127-174 | the unlimited run of a concatenation is the two runs after each other, through the carried state |
| Resampler.ConsumesAllIffFits | audio/hc15xx_resampler.c:39-40 | a run consumes all its input exactly when the unlimited output fits, and is then the unlimited run |
| Resampler.CallKeepsUpIff | audio/hc15xx_resampler.c:101-103 | the same for a call, with the early return at capacity zero |
| Resampler.RunConserves | audio/hc15xx_resampler.c:36-51 | consumed frames after the first times the output rate equal input rate times outputs after the first, plus the change of phase, also when the capacity binds |
| Resampler.RatesAreConserved | audio/hc15xx_resampler.c:70-77 | the same law over any mix of chunks and output-rate changes, with the phase always below the input rate |
| Resampler.UnityRun | audio/hc15xx_resampler.c:113-124 | at equal rates and phase zero the general run copies the input up to the capacity |
| Resampler.BlendBetween | audio/hc15xx_resampler.c:157-166 | an interpolated sample lies between its two neighbours |
| Resampler.EmitsSamples | audio/hc15xx_resampler.c:166-166 | every output is a 16-bit sample, so the cast loses nothing |
| Resampler.DownmixAverages | audio/hc15xx_resampler.c:131-132 | each mono sample is half the sum of its own left and right sample, rounded toward zero |
| ResamplerCode.NarrowSampleExact | audio/hc15xx_resampler.c:156-167 | with rates of at most 16 bits the 32-bit unsigned computation equals the unbounded reference: no overflow, no lossy cast |
| ResamplerCode.NarrowOutputsExact | audio/hc15xx_resampler.c:146-152 | the comparison that replaces the division gives the same number of outputs |
| ResamplerCode.WideSampleExact | audio/hc15xx_resampler.c:41-48 | the 64-bit computation equals the reference for all 32-bit rates |
| ResamplerCode.ResamplerState.constructor | audio/hc15xx_resampler.c:63-66 | a zeroed state |
| ResamplerCode.ResamplerState.Init | audio/hc15xx_resampler.c:58-68 | refuses exactly zero rates, otherwise starts fresh |
| ResamplerCode.ResamplerState.SetOutputRate | audio/hc15xx_resampler.c:70-77 | refuses exactly zero, otherwise changes the rate and nothing else |
| ResamplerCode.ResamplerState.ProcessWideRates | audio/hc15xx_resampler.c:7-56 | delivers the reference run: samples, count, final state, and nothing else in the output array |
| ResamplerCode.ResamplerState.ProcessNarrowRates | audio/hc15xx_resampler.c:127-174 | delivers the same reference run |
| ResamplerCode.ResamplerState.ProcessUnity | audio/hc15xx_resampler.c:113-124 | delivers the same reference run |
| ResamplerCode.ResamplerState.Process | audio/hc15xx_resampler.c:90-175 | every path delivers the one reference call; at unity rate every output is the average of its own frame, and the first output ever is that of the first frame |
| ResamplerCode.ResamplerState.Push | audio/hc15xx_resampler.c:79-88 | -1 exactly for a missing rate, else a one-frame call with room for one sample; the first push delivers the average of its two samples |
| ResamplerCode.PushConsumesIff | audio/hc15xx_resampler.c:86-87 | a pushed frame is consumed exactly when it is the first or closes fewer than two output instants; otherwise nothing changes |
| ResamplerCode.StalledForever | audio/hc15xx_resampler.c:154-155 | once a push is refused, no sequence of pushes changes anything |
| ResamplerCode.PushStallsIff | audio/hc15xx_resampler.c:79-88 | with an output rate above the input rate, n pushes end stalled exactly when phase + output rate + n times the difference of the rates reaches twice the input rate, whatever the samples |
| ResamplerCode.PushStallsSoon | audio/hc15xx_resampler.c:79-88 | at the latest after input rate minus phase pushes |
| ResamplerCode.PushKeepsUpIff | audio/hc15xx_resampler.c:79-88 | pushing keeps up with every stream exactly when the output rate is not above the input rate |
| Loader.ScanLinuxElf | boot/linux-loader.c:1558-1606 | accepts exactly the well-formed blobs whose LOAD segments lie in the blob and in RAM, and reports the tight hull of the destinations |
| Elf.ScanAcceptsIff | boot/linux-loader.c:1536-1606 | over the fields of the file as the gABI lays them out: the scan accepts exactly the 32-bit little-endian MIPS executables with a LOAD entry whose LOAD entries all lie inside the file and inside RAM |
| Elf.EntryRead | boot/linux-loader.c:216-225 | each field of a program header is read from its own place, little-endian |
| Elf.EhdrRead | boot/linux-loader.c:199-214 | so are the type, machine, table offset, entry size and count of the ELF header |
| Elf.ValidIff | boot/linux-loader.c:1538-1556 | the header check in terms of those fields |
| Elf.HeadersRead | boot/linux-loader.c:1573-1587 | headers and moves of the whole table in terms of its entries |
| Elf.HullIs | boot/linux-loader.c:1593-1604 | the reported bounds are the tight hull of the LOAD entries |
| Elf.ToKseg0Denotes | boot/linux-loader.c:1264-1271 | the physical, cached and uncached forms of an address go to the same place, every other address is beyond RAM |
| Elf.LoadedEntries | boot/linux-loader.c:1608-1654 | after the load every LOAD entry has its file bytes and a zeroed tail at its address |
| Loader.DtbDestIsLeast | boot/linux-loader.c:1724-1727 | the DTB address is the first 64 KiB boundary above kernel and payload |
| Loader.EndCheck | boot/linux-loader.c:1587-1592 | the wrapping 32-bit end check rejects exactly the segments that end beyond RAM |
| Loader.SegmentBounds | boot/linux-loader.c:1574-1598 | segments of an accepted blob read inside the blob and write only inside the hull |
| Loader.CopyForward | boot/linux-loader.c:1288-1292 | a forward copy that may overlap downwards moves the original bytes and touches nothing else |
| Loader.CopyOverlap | boot/linux-loader.c:1294-1305 | moves the original bytes for every overlap |
| Loader.ZeroBytes | boot/linux-loader.c:1307-1311 | zeroes the range and nothing else |
| Loader.UnreadIsUnwritten | boot/linux-loader.c:1615-1621 | during the backward walk no header byte and no source byte still to be read has been written |
| Loader.MoveStep | boot/linux-loader.c:1631-1653 | moving one segment after all later ones keeps every placed segment and every byte outside the destinations |
| Loader.TableKept | boot/linux-loader.c:1614-1636 | each program header reads the same in the middle of the walk as before it |
| Loader.CopyLinuxElf | boot/linux-loader.c:1608-1654 | the walk leaves every destination equal to the original blob bytes with a zeroed tail, and all other bytes as they were |
| Loader.DtbSurvives | boot/linux-loader.c:1724-1743 | copying the DTB first and the kernel second harms neither |
| Loader.LoadKernel | boot/linux-loader.c:1679-1743 | succeeds exactly on a good scan with room for the DTB at the address that the hull and the payload determine; refusal changes nothing, otherwise kernel and DTB are in place and only the hull and the DTB range changed |
| Loader.SameBlob | boot/linux-loader.c:1538-1556 | what a blob means depends on its own bytes only |
| LoaderVerify.VerifyRepairRange | boot/linux-loader.c:1449-1498 | rewrites differing words and tail bytes in order, and counts zero exactly when nothing changed |
| LoaderVerify.RepairUnit | boot/linux-loader.c:1480-1487 | one unit is rewritten when it differs, nothing else changes |
| LoaderVerify.NoRepairIff | boot/linux-loader.c:1449-1498 | the readback changes nothing exactly when source and destination agree beforehand |
| LoaderVerify.ReadbackKeepsMoveIff | boot/linux-loader.c:1743-1754 | after an upward move the readback keeps the image exactly when the overwritten part of the file repeats with the distance of the move |
| LoaderVerify.ReadbackCorruptsOverlap | boot/linux-loader.c:1743-1754 | an eight-byte move that its readback destroys |
| LoaderVerify.DisjointReadbackIsQuiet | boot/linux-loader.c:1515-1516 | after a finished load, a segment whose source nothing was written over reads back clean |
| LoaderReadback.WholeReadbackQuietIff | boot/linux-loader.c:1743-1755 | after a finished load the readback of all records, tails and the DTB changes nothing exactly when no byte that was read got another value |
| LoaderReadback.ReadbackQuietIff | boot/linux-loader.c:1500-1536 | on any memory, the records read back without a change exactly when each agrees with its source and has a zero tail |
| LoaderReadback.SegmentQuietIff | boot/linux-loader.c:1515-1534 | the same for one record |
| LoaderReadback.ReadbackInside | boot/linux-loader.c:1500-1536 | the readback touches destinations only |
| LoaderReadback.ReadbackHeals | boot/linux-loader.c:1500-1536 | when no destination covers a source byte, the readback puts every record in place, whatever memory held |
| LoaderReadback.RepairHeals | boot/linux-loader.c:1449-1488 | the same for one range |
| LoaderReadback.ClearTail | boot/linux-loader.c:1518-1534 | the tail loops zero the tail and nothing else |
| LoaderReadback.VerifyRepairElf | boot/linux-loader.c:1500-1536 | the loop over the records does the specified readback |
| LoaderReadback.VerifyRepairLoad | boot/linux-loader.c:1754-1755 | the records, then the DTB |
| FatLog.BootLog.constructor | boot/linux-loader.c:855-894 | the log starts empty on a file whose cluster chain ends, or without a file |
| FatLog.BootLog.LoadFat | boot/linux-loader.c:457-462 | afterwards the cached FAT sector is the disk's, or the read failed |
| FatLog.BootLog.ReadEntry | boot/linux-loader.c:463-484 | the FAT16 and FAT32 entry of a cluster in the cached sector, with the end marks |
| FatLog.BootLog.FatNext | boot/linux-loader.c:443-488 | the answer through the one-sector cache is the answer of the disk, and the cache stays coherent |
| FatLog.NoWrap | boot/linux-loader.c:454-456 | the 32-bit sector numbers of FAT entries do not wrap and lie below the data area |
| FatLog.BootLog.FileLba | boot/linux-loader.c:490-516 | the cached walk finds exactly the sector the chain on the disk leads to, and fails exactly when there is none |
| FatLog.EndedChainIsAcyclic | boot/linux-loader.c:501-508 | a cluster chain that reaches its end mark has no repetition |
| FatLog.EndedChainIsDistinct | boot/linux-loader.c:490-516 | then different file sectors are different disk sectors |
| FatLog.EndedChainReaches | boot/linux-loader.c:490-516 | and every sector of a file as long as its chain has a disk sector |
| FatLog.SameLba | boot/linux-loader.c:490-516 | writes outside the FAT do not move any file sector |
| FatBytes.SectorOfChain | boot/linux-loader.c:490-516 | for a FAT whose bytes link the clusters cs: file sector s is sector s mod csize of cluster cs[s / csize], and there is none beyond the last |
| FatBytes.NamesLink | boot/linux-loader.c:453-484 | the link read from two or four bytes, low byte first, with the reserved bits of FAT32 masked off |
| FatBytes.EndsLink | boot/linux-loader.c:464-481 | every end mark of FAT16 and FAT32 ends the chain |
| FatBytes.WalkFollows | boot/linux-loader.c:501-508 | the walk follows the clusters in order and ends with them |
| FatBytes.ChainHasEnd | boot/linux-loader.c:443-488 | such a file is one the log can use |
| FatBytes.FindSector | boot/linux-loader.c:490-516 | `log_file_lba` through the cache answers exactly that |
| FatLog.BootLog.FlushCurrent | boot/linux-loader.c:518-529 | writes the buffer to the sector of the file it belongs to and to no other |
| FatLog.BootLog.OpenSector | boot/linux-loader.c:531-540 | the buffer holds the current sector of the text, zero-filled |
| FatLog.BootLog.PutC | boot/linux-loader.c:542-561 | one more character up to the limit; every full sector is on the disk, the rest in the buffer, nothing outside the file changed |
| FatLog.BootLog.PutS | boot/linux-loader.c:576-580 | the text grows by the string, cut at the limit |
| FatLog.BootLog.Flush | boot/linux-loader.c:563-574 | every sector of the file that has text holds exactly that text, zero-filled to its end |
| CacheModel.HitIffRecent | tools/qemu/sf2000-cache-model.c:656-695 | without invalidation, for histories of up to 2^32 accesses, an access hits exactly when the line was accessed before and fewer than `ways` other lines of its set came since |
| CacheModel.RunsHoldExact | tools/qemu/sf2000-cache-model.c:677-693 | up to and including access 2^32 the lines held are those of an exact set |
| CacheModel.ScanOutcome | tools/qemu/sf2000-cache-model.c:674-689 | in any row the search hits a matching way behind valid ways only, else stops at the first invalid way, else takes a way of minimal age |
| CacheModel.ScanHitsIff | tools/qemu/sf2000-cache-model.c:674-684 | in any row the search hits exactly the lines with only valid ways before them |
| CacheAges.LawUpToIff | tools/qemu/sf2000-cache-model.c:656-695 | the law holds for all histories of at most n accesses exactly when there is one way, n is at most 2^32, or n is at most the number of ways; for every number of sets |
| CacheAges.OneWayLaw | tools/qemu/sf2000-cache-model.c:674-693 | with one way the law holds for histories of any length |
| CacheAges.RoomyLaw | tools/qemu/sf2000-cache-model.c:680-684 | with no more accesses than ways it holds whatever the ages are |
| CacheAges.FewWaysFail | tools/qemu/sf2000-cache-model.c:685-692 | for 2 to 2^32-1 ways a history of 2^32+1 accesses breaks it |
| CacheAges.ManyWaysFail | tools/qemu/sf2000-cache-model.c:685-692 | for more ways a history of one access more than ways breaks it |
| CacheModel.RunsAreExact | tools/qemu/sf2000-cache-model.c:646-695 | after any run of fewer than 2^32 accesses every set holds exactly its most recently used lines with their access times |
| CacheModel.ResidentIffRecent | tools/qemu/sf2000-cache-model.c:674-693 | in such a set a line is present exactly when few enough others came after it |
| CacheModel.ScanExact | tools/qemu/sf2000-cache-model.c:674-689 | the search finds the line, else a free way, else the oldest |
| CacheModel.RunsAreLive | tools/qemu/sf2000-cache-model.c:549-556 | with arbitrary invalidations every valid entry stands for an access that no invalidation of its line followed |
| CacheModel.HitIsFresh | tools/qemu/sf2000-cache-model.c:534-557 | hence no hit is stale, in any run |
| CacheHoles.HitsAgreeIff | tools/qemu/sf2000-cache-model.c:534-557 | in every run of accesses and invalidations all hits agree with least-recently-used replacement exactly when no access finds its line behind an invalid way |
| CacheHoles.RunsMatchLru | tools/qemu/sf2000-cache-model.c:656-695 | up to such an access every set holds the lines and times of the reference |
| CacheHoles.AgreesIffNotHidden | tools/qemu/sf2000-cache-model.c:680-684 | the first such access is the first to disagree |
| CacheHoles.TouchSame | tools/qemu/sf2000-cache-model.c:674-693 | any other access refreshes, fills or evicts as the reference does |
| CacheHoles.DropSame | tools/qemu/sf2000-cache-model.c:549-556 | an invalidation removes the line as the reference does |
| CacheHoles.HoleHidesLine | tools/qemu/sf2000-cache-model.c:680-684 | the smallest run with such an access |
| CacheModel.PhysicalLines | tools/qemu/sf2000-cache-model.c:647-650 | with one address for tag and index, lines are the aligned blocks of memory |
| CacheModel.DirectSegmentIndex | tools/qemu/sf2000-cache-model.c:652-662 | virtual indexing of the direct segments selects the physical set |
| CacheCode.CacheArrays.constructor | tools/qemu/sf2000-cache-model.c:631-643 | an empty cache of an accepted geometry |
| CacheCode.CacheArrays.AdvanceTick | tools/qemu/sf2000-cache-model.c:668-673 | the next tick, with all ages cleared when it wraps |
| CacheCode.CacheArrays.Search | tools/qemu/sf2000-cache-model.c:674-689 | the loop finds what the specification's search finds |
| CacheCode.CacheArrays.AccessIndexed | tools/qemu/sf2000-cache-model.c:656-695 | the arrays follow the specified access, and the result is its hit |
| CacheCode.CacheArrays.InvalidateIndexed | tools/qemu/sf2000-cache-model.c:539-557 | the arrays follow the specified invalidation |
| Hotspot.SlotsIdentifyPcs | tools/qemu/sf2000-cache-model.c:981-1004 | in every run, a later lookup gets the slot of an earlier nonzero PC exactly when it asks for the same PC; lookups of PC 0 may come in between |
| Hotspot.SlotKept | tools/qemu/sf2000-cache-model.c:994-1000 | a claimed slot keeps its PC |
| Hotspot.TableFindable | tools/qemu/sf2000-cache-model.c:989-1002 | every PC in the table stands at the end of its own probe sequence, after any insertions |
| Hotspot.FailsIffFull | tools/qemu/sf2000-cache-model.c:991-1003 | a lookup fails exactly when the table is full of other PCs |
| Hotspot.HashFolds | tools/qemu/sf2000-cache-model.c:989-990 | bits 17 and 31 of a PC are folded into its low bits |
| Hotspot.ZeroPcSharesSlot | tools/qemu/sf2000-cache-model.c:997-1000 | PC 0 is not a key: its slot is given away again |
| Hotspot.HotTable.Lookup | tools/qemu/sf2000-cache-model.c:981-1004 | the probing loop returns the specified slot and inserts exactly there |
| GeNode.DecodeNode | ge/hcge_node.c:65-89 | an independent decoder recovers the mask, every selected group and the high-address records in order from every built node |
| GeNode.NodeLength | ge/hcge_node.c:55-63 | a node has the words its mask announces plus two per record, and never more than 172 |
| GeNode.SourceWordInContext | ge/hcge_node.c:10-31 | the serializer reads only context words below 170 |
| GeNode.SourceWordIsOwned | ge/hcge_node.c:10-31 | every word of a group comes from the context word that belongs to it, so no two share one |
| GeNode.EveryWordIsUsed | ge/hcge_node.c:10-31 | every context word but the mask, the four record words and two unused ones belongs to a group |
| GeNode.HeaderOrRecord | ge/hcge_node.c:72-75 | bit 25 separates headers from record tags, and the tag gives the high nibble back |
| GeNode.HeaderSelects | ge/hcge_node.c:75-75 | the header flag does not disturb the group selection |
| GeNode.CountWords | ge/hcge_node.c:33-42 | the loop counts the words of the selected groups |
| GeNode.CountRequired | ge/hcge_node.c:55-61 | the required size is the length of the node |
| GeNode.BuildRecords | ge/hcge_node.c:65-74 | writes the records and nothing behind them |
| GeNode.WriteGroup | ge/hcge_node.c:82-88 | writes one group from its context words |
| GeNode.BuildGroups | ge/hcge_node.c:76-89 | writes the selected groups in group order |
| GeNode.Build | ge/hcge_node.c:44-92 | refuses exactly the buffers that are too small, otherwise writes the node and nothing behind it |
| GeBuild.FillWellFormed | ge/hcge_linux.c:879-901 | a fill node has exactly the words its header announces |
| GeBuild.DirectBlitWellFormed | ge/hcge_linux.c:965-979 | so has a plain copy |
| GeBuild.BlitWellFormed | ge/hcge_linux.c:981-1054 | so have the blits with any combination of mask, colour keys and rotation |
| GeBuild.StretchWellFormed | ge/hcge_linux.c:1106-1156 | so have the stretches |
| GeBuild.FillGroups | ge/hcge_linux.c:879-901 | read back by the grammar, every group of a fill holds what it should: function, surface, colour, paint type, key, rectangle, raster operation |
| GeBuild.DirectBlitGroups | ge/hcge_linux.c:965-979 | every group of a plain copy: function, both surfaces, both positions and the size |
| GeBuild.BlitGroups | ge/hcge_linux.c:981-1054 | every group of a blit: function, destination, source, mask, keys, sizes, raster operation, colour and matrix, whichever of the optional ones are present |
| GeBuild.StretchGroups | ge/hcge_linux.c:1106-1156 | the same for a stretch, whose mask has a context but no position group |
| GeBuild.Pair12RoundTrip | ge/hcge_linux.c:92-101 | a 12-bit field keeps a value exactly when it is between 0 and 4095 |
| GeBuild.BufferWordKeepsPitch | ge/hcge_linux.c:131-189 | the buffer word of a valid surface determines pitch and format code |
| GeBuild.FormatsDiffer | ge/hcge_linux.c:64-76 | the buffer word tells every two formats apart |
| GeBuild.HoldsIff | ge/hcge_linux.c:191-205 | a valid surface holds exactly the rectangles with an extent all of whose pixels it has |
| GeBuild.SurfaceValidIff | ge/hcge_linux.c:131-147 | a surface is valid exactly when it has a known format, a size and a pitch that survive encoding, and aligned memory |
| GeBatch.ParseConcat | ge/hcge_node.c:33-42 | a concatenation of well-formed nodes parses back into exactly these nodes |
| GeBatch.AddAllKeeps | ge/hcge_linux.c:554-566 | after any submissions the batch holds all nodes within the queue size in order, or has failed because they overflow the buffer |
| GeBatch.BatchIsAllOrNothing | ge/hcge_linux.c:544-617 | the device gets the whole concatenation or nothing, exactly by whether it is nonempty and fits |
| GeBatch.CompleteIffNoneOversized | ge/hcge_linux.c:551-553 | what is submitted is every node the caller passed exactly when none exceeds the queue |
| GeBatch.SubmissionParses | ge/hcge_linux.c:601-617 | what the device gets parses back into the nodes that were kept |
| GeBatch.Context.SubmitNow | ge/hcge_linux.c:568-583 | succeeds exactly when the device takes the node at once, or after a busy queue has been drained; takes it once then, and not at all otherwise |
| GeBatch.Context.SubmitBatched | ge/hcge_linux.c:554-566 | follows the specified batch with its sticky error; a batch of another context is left alone |
| GeBatch.Context.Submit | ge/hcge_linux.c:544-584 | exactly when a node is taken over, batched or not; it is taken whole or not at all |
| GeBatch.Context.BatchBegin | ge/hcge_linux.c:586-599 | opens an empty batch exactly when the context is open, has none, and there is room |
| GeBatch.BatchEnd | ge/hcge_linux.c:601-617 | refuses a batch that is not open; otherwise closes it, the device gets the whole batch or nothing, and the result says which, for every answer of the device |
| GeDraw.FillDecodes | ge/hcge_linux.c:842-902 | the engine reads back from a fill exactly the rectangle, base, pitch and pixel size: no 12-bit field is truncated |
| GeDraw.PaintsInside | ge/hcge_linux.c:131-147 | every byte a fill paints is inside [phys, phys + pitch*height) |
| GeDraw.EdgesTilePerimeter | ge/hcge_linux.c:1168-1186 | the edges cover every perimeter pixel exactly once and no other, for all sizes |
| GeDraw.EdgesHeldIff | ge/hcge_linux.c:191-205 | all edges are inside the surface exactly when the rectangle is |
| GeDraw.OutlineIsExact | ge/hcge_linux.c:1159-1189 | the nodes of an outline paint each perimeter pixel exactly once, no other pixel, and only bytes of the surface |
| GeDraw.Painter.FillRect | ge/hcge_linux.c:842-902 | exactly when a fill is submitted; it is the fill node or nothing |
| GeDraw.Painter.DrawRect | ge/hcge_linux.c:1159-1189 | which edges are filled, in order; success means all of them and a rectangle inside the surface; the acceleration mask is restored in every case |
| GeBlit.BlitViews | ge/hcge_linux.c:955-1054 | from a blit the engine reads exactly the source rectangle and the place of the (turned) result, as views of the two surfaces |
| GeBlit.BlitPassesIff | ge/hcge_linux.c:927-963 | the checks ask exactly that source, destination and mask have all the pixels |
| GeBlit.CoversIff | ge/hcge_linux.c:942-953 | the mask check asks exactly for a mask byte per source pixel |
| GeBlit.OutSizeIsTurned | ge/hcge_linux.c:954-959 | the result has the size of the turned source |
| GeBlit.BlitStaysInside | ge/hcge_linux.c:955-1054 | every pixel of both views is the right pixel and lies in the memory of its surface |
| GeBlit.TurnRotates | ge/hcge_linux.c:915-924 | each rotation matrix, read as sign and 16.16 magnitude, is the rotation by its number of quarter turns |
| GeBlit.BlitTurns | ge/hcge_linux.c:992-1053 | the rotation in the node is the one asked for |
| GeBlit.BlitFlips | ge/hcge_linux.c:986-1012 | the flips and the matrix flag are where the engine looks for them |
| GeBlit.BlitMask | ge/hcge_linux.c:1033-1047 | the mask starts at the asked position, with the asked margins, and every mask byte used lies in the mask |
| GeBlit.StretchViews | ge/hcge_linux.c:1085-1156 | the same for a stretch, with the scale the ratio of the sizes rounded down |
| GeBlit.StretchStaysInside | ge/hcge_linux.c:1085-1156 | every pixel of both views lies in the memory of its surface |
| GeBlit.StretchMapsInside | ge/hcge_linux.c:1147-1154 | scale and offset map every destination point into the source rectangle |
| GeBlit.ViewInside | ge/hcge_linux.c:207-214 | a pixel of a zero-origin view is the pixel of the surface at its offset, modulo 2^32 as in the code |
| GeClip.CutIsShownPart | ge/hcge_matrix.c:168-185 | cutting keeps exactly the pixels that clip and surface show, and empties exactly when there are none |
| GeClip.Rectangle.Intersect | ge/hcge_matrix.c:168-185 | the rectangle becomes the cut, the result says whether anything is left |
| GeClip.Rectangle.ClipRect | ge/hcge_matrix.c:199-214 | succeeds exactly when a pixel is shown, and then keeps exactly the shown pixels |
| GeClip.ClipBlit | ge/hcge_matrix.c:216-239 | a failure changes nothing; a success keeps every shown destination pixel on its own source pixel, inside the source |
| GeClip.LeftInProportion | ge/hcge_matrix.c:258-261 | what is left of a source extent is in proportion up to the two roundings, and at least one pixel |
| GeClip.StretchOutcome | ge/hcge_matrix.c:252-264 | the assignments to the source keep it inside the original and in proportion, for any sign of its size |
| GeClip.ClipStretchBlit | ge/hcge_matrix.c:241-265 | succeeds exactly when something is shown, the source has an extent and a horizontal cut leaves more than one column; the destination becomes what is shown, the source lies inside the original, its offset is less than a pixel off, and \|w'W - wW'\| <= W, 0 <= h'H - hH' < 2H |
| GeClip.StretchFitsInt32 | ge/hcge_matrix.c:252-261 | no sum or product leaves 32 bits whenever the rectangles end inside the range and the products of their sizes do |
| AudioRing.RunsAreSafe | audio/hc15xx_audio.c:202-247 | in every run after configuration the published cursor never passes submitted data, a full ring never looks empty, and after each driver call pending data is visible with the run bit set |
| AudioRing.StepKeepsLinked | audio/hc15xx_audio.c:202-247 | every step keeps the relation between the cursors and the absolute counts |
| AudioRing.ServiceKeepsLinked | audio/hc15xx_audio.c:230-247 | a service call strands nothing and publishes everything once the ring is not full |
| AudioRing.SubmitKeepsLinked | audio/hc15xx_audio.c:202-228 | a submission of any size that fits strands nothing |
| AudioRing.StartsOnlyWithData | audio/hc15xx_audio.c:242-245 | a driver call starts the engine only when there is something to play |
| AudioRing.PlayKeepsLinked | audio/hc15xx_audio.c:122-125 | what the engine sees as playable is exactly the published and unplayed part |
| AudioRing.TwoServicesDrain | audio/hc15xx_audio.c:212-216 | two service calls with playback in between play everything, the withheld tail included |
| AudioRing.ConfigureStartsRun | audio/hc15xx_audio.c:71-94 | a configured ring of more than 64 bytes starts such a run |
| AudioRing.GuardWorksIff | audio/hc15xx_audio.c:217-219 | for which ring sizes and offsets a full ring is not published as empty |
| AudioRingCode.Audio.ConfigureRing | audio/hc15xx_audio.c:71-94 | refuses exactly empty, unaligned and oversized rings and bad periods, otherwise starts an empty ring |
| AudioRingCode.Audio.Consumer | audio/hc15xx_audio.c:122-125 | the byte offset from the upper half of the cursor register |
| AudioRingCode.Audio.SetTarget | audio/hc15xx_audio.c:202-228 | the register updates follow the specified submission |
| AudioRingCode.Audio.ServiceRing | audio/hc15xx_audio.c:230-247 | the register updates follow the specified service call |
| PauseHandshake.CalmRunsAreClean | userspace/sf2000-screen.c:1864-1898 | in every interleaving without a timeout that strikes an acknowledging screen, no frame is submitted while powerd owns the display; stop requests, failed drains and failed marker files may happen anywhere |
| PauseHandshake.CalmStepKeepsInv | userspace/sf2000-powerd.c:193-223 | each such step keeps the invariant and submits no frame under ownership |
| PauseHandshake.InitIsCalm | userspace/sf2000-screen.c:5162-5207 | the initial state satisfies the invariant |
| PauseHandshake.OwnershipLastsUntilResume | userspace/sf2000-powerd.c:193-223 | once powerd owns the display, the screen stays parked until the request is removed or a stop is requested |
| PauseHandshake.CalmRunsAreQuiet | userspace/sf2000-screen.c:3278-3279 | without a stop request the screen does not use the engine at all under ownership |
| PauseHandshake.TimeOutIsFatalIff | userspace/sf2000-powerd.c:210-217 | a timeout can lead to a frame under ownership exactly when it strikes while a screen that was not stopped is acknowledging; the marker may be there or not |
| PauseHandshake.LateAcknowledgement | userspace/sf2000-screen.c:1864-1898 | the run in which a late marker answers the next request |
| PauseHandshake.StopDisturbs | userspace/sf2000-screen.c:1893-1895 | a stop request under ownership makes the screen leave its parking loop and clear its off-screen surface, without a frame |
| PauseResponse.AnsweredIff | userspace/sf2000-screen.c:1864-1898 | the screen's own steps and one poll give a waiting powerd the display exactly when the screen is not parked without a marker |
| PauseResponse.PauseSucceedsIff | userspace/sf2000-powerd.c:193-218 | a pause attempt from rest is answered exactly when the screen has left its parking loop by the time the request is written |
| PauseResponse.ScreenParks | userspace/sf2000-screen.c:1869-1895 | from anywhere in its loop the screen drains, publishes the marker and parks |
| PauseResponse.UnheardStays | userspace/sf2000-screen.c:1893-1895 | while parked without a marker, nothing the screen does and no poll changes anything |
| PauseResponse.InitAnswers | userspace/sf2000-powerd.c:193-218 | from the initial state a pause succeeds |
| PauseResponse.QuickPauseIsUnheard | userspace/sf2000-powerd.c:198-223 | resuming and pausing again at once is not noticed |
| PauseResponse.ResumeReturns | userspace/sf2000-screen.c:1893-1897 | after a resume the screen clears both flags and draws again |
| PauseResponse.DrainIsRetried | userspace/sf2000-screen.c:1881-1890 | a failed drain is tried again on the next round |
| PauseResponse.FailedPublicationIsUnheard | userspace/sf2000-screen.c:1328-1337 | a marker that cannot be written leaves powerd unheard |
| PauseResponse.FramesFlow | userspace/sf2000-screen.c:5162-5207 | without a request or a stop the loop presents frame after frame |
| PauseResponse.StopExits | userspace/sf2000-screen.c:5162-5169 | after a stop request the screen leaves its loop from wherever it is |
| Retained.RunHolds | platform/hc15xx_retained.c:15-37 | after any run of eager and lazy marks, mark k of the last 1024 is in slot k mod 1024 with its number, and the header counts them |
| Retained.DumpedIsLatestIff | boot/linux-loader.c:789-809 | the dump shows exactly the last min(n, 1024) marks in order, exactly under a condition on the header |
| Retained.WrappedIff | userspace/sf2000-screen.c:987-992 | the wrapped flag, read off the run |
| Retained.DumpCompleteIff | boot/linux-loader.c:763-809 | the same condition on the run itself: at most one round, a whole number of rounds, or some wrap recorded |
| Retained.OneConventionIsComplete | platform/hc15xx_retained.c:30-35 | unless a lazy mark fills the last slot and an eager one follows, the dump is complete |
| Retained.LazyThenEagerLosesMarks | boot/linux-loader.c:672-679 | that mix leaves a dump of one entry |
| Retained.MatchesIff | userspace/sf2000-screen.c:2814-2816 | the 24-byte comparison tells whether the mark's name begins with the handoff name, whatever is left behind the terminator |
| Retained.BestIsNewest | userspace/sf2000-screen.c:2810-2822 | the highest sequence number belongs to the newest retained matching mark, after every run |
| Retained.CopyNameZeroFilled | userspace/sf2000-screen.c:963-971 | the stored name holds the text, cut to 31 characters and terminated |
| Retained.CopyNameTerminated | boot/linux-loader.c:592-599 | the same, with the old bytes left behind the terminator |
| Retained.RetainedLog.constructor | boot/linux-loader.c:601-617 | a ring over given entries that is not yet recognised |
| Retained.RetainedLog.Reset | boot/linux-loader.c:601-617 | a recognised ring without marks |
| Retained.RetainedLog.EagerMark | platform/hc15xx_retained.c:4-38 | -1 and no change without a recognised header, otherwise the specified eager step |
| Retained.RetainedLog.LazyMark | userspace/sf2000-screen.c:973-1003 | the specified lazy step, on a fresh ring if there was none |
| Retained.RetainedLog.Clear | userspace/sf2000-screen.c:981-985 | an empty ring |
| Retained.RetainedLog.DumpPrevious | boot/linux-loader.c:735-810 | the entries shown for a usable header are the specified ones |
| Retained.RetainedLog.FindHandoff | userspace/sf2000-screen.c:2810-2822 | the loop finds the matching entry with the highest sequence number |
| Retained.RetainedLog.DetectHandoff | userspace/sf2000-screen.c:2796-2826 | answers with the newest retained handoff mark and leaves exactly one mark of its own when there is one |
| Logd.RunsKeepOrder | userspace/sf2000-logd.c:92-195 | in every run the buffer is a suffix of the appended stream and whole writes plus buffer are a subsequence of it, through failed writes, checkpoints and journal transitions |
| Logd.FileKeepsOrder | userspace/sf2000-logd.c:72-125 | so are the actual bytes of the file when failed writes leave nothing behind |
| Logd.ApplyInOrder | userspace/sf2000-logd.c:160-195 | each step keeps that order unless an oversized text overtakes an unflushed buffer |
| Logd.RunsConserve | userspace/sf2000-logd.c:160-195 | written, buffered, dropped and lost bytes add up to the appended ones in every run |
| Logd.ApplyConserves | userspace/sf2000-logd.c:92-195 | the same for each step |
| Logd.AccountingIsCompleteIff | userspace/sf2000-logd.c:164-175 | the counter accounts for everything exactly when no oversized append overwrote a buffer or failed to be written |
| Logd.DeferredKeepsFile | userspace/sf2000-logd.c:583-623 | while storage is deferred the file stays as it is until a forced checkpoint, the end of the journal or shutdown |
| LogdWindow.AppendKeepsNewest | userspace/sf2000-logd.c:177-194 | nothing is dropped that fits: before the closing flush the buffer is exactly the newest 512 KiB of what was unflushed and the text, the counter grows by the excess, and flushes move whole buffers |
| LogdWindow.JournalHoldsNewest | userspace/sf2000-logd.c:181-187 | while storage is deferred the buffer is the newest 512 KiB of what it held and what was appended since |
| LogdWindow.JournalCountsDrops | userspace/sf2000-logd.c:181-187 | and the counter is what no longer fits |
| LogdWindow.SessionReachesFile | userspace/sf2000-logd.c:583-623 | a session's text is not in the file before its end, and its newest 512 KiB are behind the old contents afterwards |
| LogdWindow.OversizeMoves | userspace/sf2000-logd.c:164-176 | where an oversized text and the buffer before it go |
| LogdWindow.FlushMoves | userspace/sf2000-logd.c:92-100 | a flush moves the whole buffer to the end of the file, or no kept byte |
| LogdWindow.CheckpointMoves | userspace/sf2000-logd.c:115-125 | a checkpoint does so also while storage is deferred |
| LogdWindow.BeginDefers | userspace/sf2000-logd.c:583-600 | beginning a journal flushes, defers and restarts the counters |
| LogdWindow.EndDrains | userspace/sf2000-logd.c:601-622 | ending it or shutting down moves the buffer to the file |
| LogdWindow.RebindMoves | userspace/sf2000-logd.c:497-528 | closing or reopening flushes to the old file first |
| LogdWindow.ReachIs | userspace/sf2000-logd.c:72-90 | `write_all` gets as far as the bytes accepted before the first failure; interruptions do not matter |
| Logd.ApplyKeepsBounds | userspace/sf2000-logd.c:181-194 | used <= peak <= buffer size after every step |
| Logd.OrderKeptIff | userspace/sf2000-logd.c:164-167 | from any state in order, all texts of a length keep the order exactly when the append does not go straight to the file past an unflushed buffer |
| Logd.OvertakingBreaksOrder | userspace/sf2000-logd.c:164-167 | such an append breaks the order whenever text and buffer end in different characters |
| Logd.OvertakingIsReachable | userspace/sf2000-logd.c:160-195 | a run of two steps gets there |
| Logd.Journal.constructor | userspace/sf2000-logd.c:33-38 | the empty journal |
| Logd.Journal.WriteAll | userspace/sf2000-logd.c:72-90 | for any answers of `write`, short and interrupted ones included, the file gains a prefix of the data, and the whole exactly on return 0 |
| Logd.Journal.FlushLog | userspace/sf2000-logd.c:92-100 | follows the specified flush, and fails exactly when a needed write does |
| Logd.Journal.ForceFlushLog | userspace/sf2000-logd.c:115-125 | follows the specified forced flush, and returns -1 or the result of the sync |
| Logd.Journal.Discard | userspace/sf2000-logd.c:180-187 | the moved window is the newest part of the buffer, the rest is counted |
| Logd.Journal.Store | userspace/sf2000-logd.c:189-192 | the text is behind the buffer, the peak is kept |
| Logd.Journal.StoreOversize | userspace/sf2000-logd.c:164-176 | follows the specified oversize branch |
| Logd.Journal.AppendBytes | userspace/sf2000-logd.c:160-195 | follows the specified append in all its branches |
| Logd.Journal.BeginJournal | userspace/sf2000-logd.c:583-600 | flushes, then defers and restarts the counters |
| Logd.Journal.EndJournal | userspace/sf2000-logd.c:601-622 | ends deferral, then flushes |
| Logd.Journal.Rebind | userspace/sf2000-logd.c:497-528 | flushes before the file is closed |
| Crc.CrcMpeg2 | tools/asdpack.c:14-32 | the table-driven loop computes the bit-serial CRC-32/MPEG-2 of every message |
| Crc.TableStepIsSerial | tools/asdpack.c:27-29 | one table step equals eight clocks of the shift register |
| Crc.BuildEntry | tools/asdpack.c:21-24 | a table entry is its index shifted through eight clocks |
| Crc.BuildTable | tools/asdpack.c:20-25 | so is every entry of the table |
| Crc.RegisterInjective | tools/asdpack.c:28-29 | equal registers after the same bytes were equal before them |
| Crc.BitsValue | tools/asdpack.c:29-29 | the bits clocked in for a byte have its value |
| CrcCheck.CheckValue | tools/asdpack.c:14-32 | the digits 1 to 9 have the published check value 0x0376e6e7 |
| Crc.BurstIsSeen | tools/asdpack.c:14-32 | messages that differ only within four adjacent bytes have different checksums |
| AsdPack.Le32RoundTrip | tools/asdpack.c:34-48 | reading back a written word gives it modulo 2^32 |
| AsdPack.Read32Injective | tools/asdpack.c:34-40 | different bytes read as different words |
| AsdPack.WriteLe32 | tools/asdpack.c:42-48 | four bytes change, in little-endian order |
| AsdPack.PackFile | tools/asdpack.c:109-125 | the buffer is the packed image: magic, size, checksum, padding, input |
| AsdPack.CheckFile | tools/asdpack.c:151-195 | accepts exactly the images with the four demanded properties |
| AsdPack.PackedPassesIff | tools/asdpack.c:109-184 | a packed image passes the check exactly when its payload size fits 32 bits |
| AsdPack.PackedCarriesInput | tools/asdpack.c:109-117 | the input is in the image |
| AsdPack.MagicIsText | tools/asdpack.c:118-121 | an image begins with the letters LCFG |
| AsdPack.ByteChange | tools/asdpack.c:161-184 | changing one byte of a passing image makes the check fail exactly at the magic, the size, the checksum and every byte from 0x200 on |
| AsdPack.BurstFails | tools/asdpack.c:178-184 | so does any change within four adjacent payload bytes |

## Left out
- Registers of panel, video output, GMA, clocks, backlight, watchdog and UART, inline assembly, ROM calls, syscalls and mmap: fixed hardware sequences.
- Floating-point code in ge/hcge_filter.c and the matrix half of ge/hcge_matrix.c.
- vdec/, dsc/, efuse/, audio/hc15xx_avsync.c, init/, player/, the mount, storage-probe and pad services: register sequences, bounded polls and supervision, which would only add easy members.
- Cache write-backs and invalidations around the kernel copy, and the loader's own code being overwritten: RAM is one array of bytes.
- Loader.CopyLinuxElf: requires what the comment at boot/linux-loader.c:1615-1621 relies on (ascending disjoint file ranges, destinations not below their sources and pairwise disjoint, header table in front), which the code does not check.
- LoaderReadback.VerifyRepairElf: takes the records as read from the header table, which lies in front of every destination.
- FatLog.BootLog.constructor: takes the mounted volume and the opened file as given; a failed disk read is taken to leave the FAT buffer alone.
- CacheCode.CacheArrays.constructor: takes the geometry that `cache_init` accepts, with shifts as divisions and masks as remainders; the power-of-two test and log2 are not modelled.
- GeBlit.BlitViews: colours, colour keys, blend and raster-operation values and effect-flag validation are taken as given words; the local node arrays are sequence values.
- GeClip.ClipStretchBlit: source and destination are different objects; 32-bit overflow is excluded by GeClip.StretchFitsInt32 under its condition.
- GeClip: `hcge_clip_qw`, a single rounding.
- GeBatch.Context.Submit: the copy of the last submitted node kept for diagnosis.
- AudioRing.RunsAreSafe: driver calls are atomic, rings are above 64 bytes, and a run ends at `stop`, which zeroes the hardware cursors but keeps the software ones.
- PauseHandshake.CalmRunsAreClean: poll intervals and the length of the timeout; a timeout may strike at any poll.
- Retained.RunHolds: runs of fewer than 2^32 marks; tearing of a mark by a reset in its middle.
- Logd.RunsKeepOrder: record formatting and 64-bit overflow of the drop counter.
- AsdPack.PackFile: file reading and writing, allocation failure, and hosts with 32-bit sizes.
