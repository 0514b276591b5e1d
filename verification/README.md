# Storage, loading, scheduling and memory of the kernel, verified

This project models the parts of the kernel that keep state for others, and proves what they promise:

* the FAT32 driver on top of the IDE byte device (`src/modules/fat/main.c`, `src/modules/ide/main.c`);
* the ELF relocators of the ia32 and amd64 ports (`src/ia32/module.c`, `src/amd64/module.c`);
* the scheduler, the descriptor lists, the node tree and its path lookup, and the string routines they use
  (`src/kernel/sched/core.c`, `src/kernel/vfs/vfd.c`, `src/kernel/vfs/vnode.c`, `src/kernel/string.c`);
* the page bitmap and the block allocator (`src/kernel/vmem/bitmap.c`, `src/kernel/vmem/alloc.c`).

`dafny verify dfyconfig.toml` checks all of it. Machine words are those of the ia32 port (`unsigned long` and
`size_t` have 32 bits, and sums and products wrap); the relocators are also modelled at 64 bits. `Panic` never
returns in the kernel: here it is a failure result.

## How the model is built

| layer | files | what it shows |
|---|---|---|
| byte device | `Ide`, `TaskFile` | any sequence of reads and writes is one on a flat byte array; the command block decodes to the sector asked for |
| disk layout | `FatGeometry`, `FatDisk`, `FatOnDisk` | where tables and clusters lie, also by the fields of the boot sector; one table update is one map update on both copies |
| file system as a value | `FatChains`, `FatDirectory`, `FatFiles`, `FatPack`, `FatSearch` | chains, first-fit stores, slots, one directory |
| map of names | `FatMap`, `FatRuns`, `FatPacked`, `FatExamples` | a volume is a map from 8.3 names to byte strings; what each write does to it, and every run of writes; where the packed place of a slot leads; small volumes at which promises fail |
| the driver | `FatDriver`, `FatClient`, `FatSession`, `FatFormatted` | each function of the driver, on the heap and over the device, does what the value says; the run law on the disk; a formatted disk on which it is used |
| relocation | `Elf`, `ElfFields`, `ElfRelocate`, `ElfLaws`, `ElfMeaning`, `ElfFormulas`, `ElfLoad`, `ElfExample`, `ElfExample64` | where fields lie; the in-place loops run a list of patches; patching in sequence is patching at once; the base-shift law; what each relocation number leaves, and when that is what the ABI defines; a module for each word size |
| processes | `SchedModel`, `Sched` | a transition system with its theorems over runs; the kernel's lists and images implement it, event by event and over runs |
| open files | `VfdModel`, `Vfd` | the same pair for descriptor lists |
| nodes | `Vnode`, `Path`, `Strings` | sibling lists, lookup as a walk over components, process names |
| pages | `AllocModel`, `AllocHeap`, `Alloc` | free pages and blocks as values; the heap with its headers over every run; `kalloc` and `kfree` on bitmap and memory implement its steps |

`Bytes` and `Arith` hold words, byte copies and the multiplication and division laws.

The FAT driver relies on `FatGeometry.ValidVolume`: FAT32 by `FatIdentify`, a sector size that is a multiple of 32, at
least two table copies that are large enough, and a volume that lies on the device and below 4 GB. `FatFiles.Volume`
is a file system seen from one directory, the root or a subdirectory with its entries "." and "..": the directory's
chain, those of its files and any others of the file system are disjoint, and only zero slots follow the directory's
first zero slot. The caller's buffer must be readable up to the next sector boundary, because `FatWriteData` writes
whole sectors.

## What the code does not do

Where a promise fails, the code is modelled as it is. Each point names the theorem with the exact condition, and where
there is one the lemma with an input at which the promise fails.

* **Duplicate names.** `FatWrite` never looks for an existing entry, so a name gives the file of the lowest slot that
  carries it, whichever write filled that slot (`FatRuns.RunLaw`). In a directory without unused slots, and with no
  names that start with byte 0xE5, that is the first one for ever, and later writes take clusters that nothing finds
  again (`FatMap.FirstWriteWins`, `FatExamples.DuplicateName`).
* **Names that start with byte 0xE5** mark their own entry as unused: written files are never found
  (`FatMap.RoundTrip`, `FatExamples.UnusedName`).
* **Long stems.** A stem of more than 8 characters makes the extension out of the rest of the stem
  (`FatDirectory.ConvertSplits`).
* **Long file names.** The driver means to skip the slots of long names, but compares their attributes with 0x3F instead
  of 0x0F: such a slot is taken for a file exactly if its first eleven bytes agree with the name that is searched for
  (`FatDirectory.LongNameSlot`, `FatDirectory.LongNameTaken`). Slots with attributes 0x3F are never found
  (`FatDirectory.FindIsFirst`).
* **Packed slot positions** are lossless exactly for clusters below 65536 and slot indices below 256
  (`FatPack.PackLossless`). For names that do not start with byte 0xE5, `FatWrite` does what a write into the first free
  slot does exactly if that fails or the place of the slot is packed without loss (`FatPacked.WritePackedIff`).
  Otherwise the entry goes to some other place, or the write returns -2 although a slot is free. The latter happens
  exactly for the first slot of a cluster whose number is a multiple of 65536 (`FatPacked.FreeSlotMissedIff`,
  `FatExamples.FarDirectoryFull`).
* **One table copy.** `FatSetCluster` writes one copy further on even when the boot sector counts one copy only; that
  copy then lies in the data area (`FatGeometry.SecondCopyFitsIff`).
* **An entry of 2^32 - 1 bytes** makes `FatRead` ask `kalloc` for 0 bytes and panic in `memset`
  (`FatDriver.Driver.FatRead`). The driver itself cannot write such a file (`FatClient.WriteFits`).
* **Cylinder/head/sector addresses** are right exactly below 65536 * 1008 sectors (`TaskFile.CommandBlock.IDEAccess`,
  `TaskFile.ChsBeyondLimit`). The device model has no drive without LBA that is larger.
* **32-bit displacements** on amd64 are truncated; they reach their goal exactly within 2 GB
  (`ElfLaws.DisplacementReaches`, `ElfLaws.DisplacementTooFar`).
* **Absolute symbols in REL sections** count as 0 on both architectures: that case exists for RELA only. It is the only
  entry whose symbol value is not the ABI's (`ElfMeaning.SymbolValueIff`, `ElfExample.AbsoluteInRelFails`).
* **Decimal text.** `UlToString` swaps past the middle, so only the outer digits are exchanged: the text is the decimal
  numeral exactly if the inner digits are a palindrome. It is injective all the same (`Strings.NameIsDecimalIff`,
  `Strings.NameOf1234`, `Strings.NameInjective`).
* **First children.** `RegisterChildVNode` never sets `Parent`, and `UnregisterVNode` moves the parent's `FirstChild`
  on only through it (`Vnode.UnregisterChild`). `SchedulerExit` makes up for it by hand.
* **Exit of the last process.** The loop of `CommitNextProcess` ends exactly if a process besides "self" is left;
  otherwise its cursor comes back to "self" for ever (`SchedModel.SkipEndsIff`).
* **Descriptor numbers** are unique until the 32-bit counter wraps around (`VfdModel.RunOk`); from then on an open keeps
  them unique exactly if no live descriptor has the number it gives out (`VfdModel.OpenUniqueIff`). Index -1 is always
  that of the list head, whose node pointer is null (`Vfd.Table.find`).
* **Freed memory.** `SchedulerExit` reads the successor of a descriptor that `close` has freed. That works because
  `kfree` leaves memory as it is, which the model relies on (`Vfd.Table.CloseFirst`).
* **Blocks of several pages** are taken as single lowest free pages. The heap stays sound, and the new block overlaps no
  other, exactly if those were consecutive and the size does not wrap around; otherwise the block runs into other blocks
  or into pages that later blocks get (`AllocHeap.KallocSoundIff`, `AllocHeap.KallocSafeIff`). `kfree` gives back the
  pages that `kalloc` took exactly if they were consecutive and the size in the header does not round to 0 pages
  (`AllocHeap.KfreeUndoesKallocIff`, `AllocHeap.FragmentedBlock`, `AllocHeap.FragmentedFree`). The 4103 largest sizes
  wrap around and get one page (`AllocHeap.EnoughPagesIff`).
* **Long path components** are looked up as if a slash followed their first 127 characters, and a child with a longer
  name is never found by it (`Path.LongComponent`, `Path.LongNameNotFound`).
* **A null parent** is dereferenced when a path ends there, and panics when it goes on (`Path.LookupComposes`).

## Model

| member | source | states |
|---|---|---|
| FatClient.WriteThenRead | src/modules/fat/main.c:378-429 | writing a file and reading its converted name on the disk returns exactly its bytes and a NUL, if the write returned 0 and no earlier slot carries the name |
| FatClient.ReadView | src/modules/fat/main.c:394-429 | on a volume FatRead returns the bytes that the map of names gives, or no file |
| FatClient.WrittenFound | src/modules/fat/main.c:187-238 | after a successful write the search for its name ends at the new entry, which owns the new chain |
| FatClient.WriteFits | src/modules/fat/main.c:378-404 | no volume below 4 GB holds a file of 2^32 - 1 bytes, so a written file always fits the buffer that FatRead asks for |
| FatSession.WriteAllThenRead | src/modules/fat/main.c:378-429 | on the disk, after any number of FatWrite calls, whatever they return, FatRead gives the bytes of the lowest slot that carries the name, initial or written |
| FatSession.WriteAll | src/modules/fat/main.c:378-392 | any number of FatWrite calls on the disk are that run of writes on the volume, code by code |
| FatSession.WriteKeepsPack | src/modules/fat/main.c:322-362 | a write leaves no free slot whose place packs with loss if there was none |
| FatPacked.WritePackedIff | src/modules/fat/main.c:322-392 | FatWrite has the result of a write into the first free slot exactly if that fails or the slot's cluster is below 65536 and its index in the sector below 256 |
| FatPacked.FreeSlotMissedIff | src/modules/fat/main.c:340-347 | FatWrite returns -2 for a free slot exactly if it is the first of a cluster whose number is a multiple of 65536 |
| FatPacked.StoreKeepsSpot | src/modules/fat/main.c:284-345 | storing the data leaves the first free slot of the directory where it was |
| FatFormatted.WriteFirstFile | src/modules/fat/main.c:378-429 | on a freshly formatted disk with two sectors a cluster every file of one to 3072 bytes is written with code 0 and read back |
| FatFormatted.WriteTwoFiles | src/modules/fat/main.c:378-429 | of two files written under one name on that disk the first is read back |
| FatMap.RoundTrip | src/modules/fat/main.c:378-429 | reading a written name: the bytes written, or the older file's if an earlier slot carries the name, or nothing if the name starts with 0xE5 |
| FatMap.WriteUpdatesView | src/modules/fat/main.c:378-392 | a write changes the map of names at one name at most, and not at all when it fails |
| FatMap.WriteCodes | src/modules/fat/main.c:378-392 | exactly when FatWrite returns 0, -1 and -2, if a free slot's place is packed without loss, and which clusters it takes in each case |
| FatMap.FirstWriteWins | src/modules/fat/main.c:378-392 | over every run of writes in a directory without unused slots, and of names that do not start with 0xE5, present files keep their bytes and absent names get the first bytes stored under them |
| FatRuns.RunLaw | src/modules/fat/main.c:378-392 | over every run of writes, in every directory, a name gives the bytes of the lowest slot that carries it, be it an initial slot or one of a successful write |
| FatRuns.WriteUpdatesHolders | src/modules/fat/main.c:378-392 | a write adds its slot and bytes to the slots that carry its name and changes no slot of any name |
| FatRuns.ViewIsLowest | src/modules/fat/main.c:187-238 | reading a name gives the file of the lowest slot that carries it, or nothing when none does |
| FatExamples.SubdirectoryIsVolume | src/modules/fat/main.c:202-235 | a subdirectory with its entries "." and ".." is a volume |
| FatExamples.DuplicateName | src/modules/fat/main.c:378-392 | two writes of "A" both return 0, and the first byte is read back |
| FatExamples.UnusedName | src/modules/fat/main.c:214-215 | a write of a name that starts with 0xE5 returns 0, and nothing is read back |
| FatExamples.FarDirectoryFull | src/modules/fat/main.c:340-347 | in an empty directory at cluster 65536 a write returns -2 |
| FatMap.WriteKeepsNoHoles | src/modules/fat/main.c:322-362 | a write leaves no slot of the directory marked unused if there was none |
| FatMap.StoredBytes | src/modules/fat/main.c:284-320 | the chain of a successful store holds the first `size` bytes of the buffer |
| FatFiles.WriteKeepsVolume | src/modules/fat/main.c:378-392 | every write, whatever it returns, leaves disjoint chains and only zero slots after the first zero slot |
| FatFiles.WriteKeepsContents | src/modules/fat/main.c:378-392 | every chain of the file system, whether or not a file of this directory owns it, keeps its clusters and bytes |
| FatFiles.StoreKeepsVolume | src/modules/fat/main.c:284-320 | storing data, also when space runs out midway, changes no file, no chain and no slot |
| FatFiles.NeededIsCeiling | src/modules/fat/main.c:292-317 | the clusters needed are the size divided by the cluster size, rounded up |
| FatFiles.PiecesCount | src/modules/fat/main.c:295-317 | the writing loop makes as many rounds as clusters are needed |
| FatFiles.PiecesContent | src/modules/fat/main.c:304-314 | clusters that start with the sectors written hold the file's bytes one after the other |
| FatFiles.StoreGoesOn | src/modules/fat/main.c:295-317 | one round of the writing loop: first free cluster, linked, filled with whole sectors, or the end when none is free |
| FatFiles.PutContent | src/modules/fat/main.c:350-362 | overwriting a place in one cluster of a chain overwrites that place of the chain's content |
| FatChains.StoreForest | src/modules/fat/main.c:275-320 | a store adds one chain disjoint from a forest of chains and keeps the forest |
| FatChains.StoreFrame | src/modules/fat/main.c:260-320 | no table entry and no byte outside the new chain changes |
| FatChains.StoreKeeps | src/modules/fat/main.c:284-320 | an existing chain stays a chain with the same bytes, disjoint from the new one |
| FatChains.StoreSucceedsIff | src/modules/fat/main.c:240-320 | a store succeeds exactly if there are enough free clusters; it takes the lowest ones and the others stay free |
| FatChains.StoreChain | src/modules/fat/main.c:295-319 | the clusters taken form one chain that ends |
| FatChains.StoreContent | src/modules/fat/main.c:304-314 | each cluster of the new chain starts with its piece of the data |
| FatChains.WalkDistinct | src/modules/fat/main.c:413-426 | a walk that ends visits no cluster twice |
| FatDirectory.FindFreeIsFirst | src/modules/fat/main.c:337-341 | the slot chosen for a new entry is the first free one |
| FatDirectory.FindIsFirst | src/modules/fat/main.c:202-235 | a search finds the first slot whose byte 0 is not 0xE5, whose attributes are not 0x3F and whose first eleven bytes agree with the name, before any slot that starts with 0, and nothing exactly if there is none |
| FatDirectory.FreeIsFirst | src/modules/fat/main.c:337-341 | the search for a free slot ends at the first one that starts with 0 or 0xE5 |
| FatDirectory.LongNameSlot | src/modules/fat/main.c:216-224 | a slot with attributes 0x0F is taken for a file exactly if its first eleven bytes agree with the name |
| FatDirectory.LongNameTaken | src/modules/fat/main.c:216-224 | a slot of a long name that is found as a file |
| FatDirectory.ConvertsName | src/modules/fat/main.c:431-445 | "A.TXT" becomes "A" and "TXT", padded with spaces |
| FatDirectory.InsertFindsNew | src/modules/fat/main.c:187-238 | a search finds the new entry unless an earlier slot carries the name |
| FatDirectory.InsertKeepsOthers | src/modules/fat/main.c:187-238 | every other name is found where it was, or still missing |
| FatDirectory.InsertKeepsZeroTail | src/modules/fat/main.c:322-362 | only zero slots follow the first zero slot, still |
| FatDirectory.SamePrefixIsEqual | src/modules/fat/main.c:222-223 | the name comparison is equality for names without NUL |
| FatDirectory.FatConvert83 | src/modules/fat/main.c:431-445 | the two loops give the padded stem and extension |
| FatDirectory.ConvertSplits | src/modules/fat/main.c:431-445 | what becomes of every path: its stem before the first dot, up to 8 characters or longer, and its extension up to a slash |
| FatSearch.FreeSpotIsFirst | src/modules/fat/main.c:328-345 | searching cluster by cluster finds the first free slot of the whole directory |
| FatSearch.NameSpotIsFirst | src/modules/fat/main.c:202-235 | searching cluster by cluster finds the name's first slot in the whole directory |
| FatPack.PackLossless | src/modules/fat/main.c:340-355 | packing and unpacking a slot position gives it back exactly for clusters below 65536 and indices below 256 |
| FatPack.PackZeroIff | src/modules/fat/main.c:340-347 | a position is packed as the failure value 0 exactly for the first slot of a cluster whose number is a multiple of 65536 |
| FatPack.PackNonZero | src/modules/fat/main.c:340-347 | a packed position is not the failure value 0 |
| FatGeometry.LayoutValid | src/modules/fat/main.c:52-123 | on a valid volume tables and clusters lie apart, inside the device and below 4 GB |
| FatGeometry.ClustersApart | src/modules/fat/main.c:120-123 | different clusters occupy disjoint bytes |
| FatGeometry.NoWrap | src/modules/fat/main.c:70-90 | the 32-bit sums of the geometry do not wrap, and all clusters lie before the last sector |
| FatGeometry.FatEntryOffset | src/modules/fat/main.c:131-138 | the computed sector of a table entry is its sector in the first copy, and the second write hits the second copy |
| FatGeometry.ClusterOffset | src/modules/fat/main.c:120-123 | the computed byte offset of a cluster's sector is its place in the layout |
| FatGeometry.SecondCopyFitsIff | src/modules/fat/main.c:271-272 | the second copy written lies before the data exactly if there are two table copies |
| FatOnDisk.ClusterCountIs | src/modules/fat/main.c:81-90 | the cluster count is the number of whole clusters in the sectors behind the reserved ones and the tables |
| FatOnDisk.ClustersAre | src/modules/fat/main.c:81-90 | the clusters that the driver knows are those whose sectors lie within the volume |
| FatOnDisk.TableIs | src/modules/fat/main.c:131-141 | the entry of a cluster is the low 28 bits of the little-endian dword at its place behind the reserved sectors |
| FatOnDisk.ClusterIs | src/modules/fat/main.c:120-123 | the bytes of a cluster are those from its first sector on, by the fields of the boot sector |
| FatOnDisk.FirstFreeIsLowest | src/modules/fat/main.c:240-258 | the free cluster chosen is the lowest within the volume whose entry on the disk is 0 |
| FatOnDisk.Fat32Iff | src/modules/fat/main.c:92-109 | when a volume is identified as FAT32, by its count and its signature bytes |
| FatDisk.SetEntryAbs | src/modules/fat/main.c:260-273 | the sector read-modify-write is one map update of the decoded table |
| FatDisk.SetEntryKeeps | src/modules/fat/main.c:260-273 | the top four bits of every entry, the copies' equality and all bytes elsewhere are kept |
| FatDisk.ClusterWriteAbs | src/modules/fat/main.c:304-311 | a write into a cluster changes that cluster and neither the table nor another cluster |
| FatDisk.ClusterWriteKeeps | src/modules/fat/main.c:304-311 | a write into a cluster leaves both table copies and everything outside the data area as they were |
| FatDisk.EntryInSectorBytes | src/modules/fat/main.c:136-140 | the masked word read from the sector is the decoded table entry |
| FatDriver.Driver.FatNextCluster32 | src/modules/fat/main.c:131-141 | returns the decoded table entry |
| FatDriver.Driver.FatNextCluster | src/modules/fat/main.c:170-185 | on a FAT32 volume, the entry on the disk |
| FatDriver.Driver.FatFindFreeCluster | src/modules/fat/main.c:240-258 | returns the lowest cluster within the volume whose entry on the disk is 0, or 0 exactly if every entry is in use |
| FatDriver.Driver.FatSetCluster | src/modules/fat/main.c:260-273 | updates one entry of the table, keeping the rest of the disk |
| FatDriver.Driver.FatAllocateCluster | src/modules/fat/main.c:275-282 | takes the first free cluster and ends a chain there |
| FatDriver.Driver.FatFillCluster | src/modules/fat/main.c:304-314 | writes whole sectors of the buffer to the start of a cluster |
| FatDriver.Driver.FatAppendCluster | src/modules/fat/main.c:297-314 | one round of the writing loop on the disk |
| FatDriver.Driver.FatWriteData | src/modules/fat/main.c:284-320 | the disk after it is the stored file system, and the result is the chain's first cluster or 0 |
| FatDriver.Driver.FatFindFreeEntry | src/modules/fat/main.c:322-348 | returns the packed place of the first free slot of the directory, or 0 |
| FatDriver.Driver.FatWriteDirectoryEntry | src/modules/fat/main.c:350-362 | changes exactly the 32 bytes of the slot at the packed place |
| FatDriver.Driver.FatCreateEntry | src/modules/fat/main.c:364-376 | the 32 bytes of an entry: padded name, attributes, the two halves of the first cluster, size, and zeros |
| FatDriver.Driver.FatWrite | src/modules/fat/main.c:378-392 | the disk and the return code are those of the file system as a value, with the entry at the place that comes out of packing and unpacking |
| FatDriver.Driver.FatLocateInDir | src/modules/fat/main.c:187-238 | finds the first slot of the directory's bytes that carries the name, with its bytes, cluster, sector and index, and none exactly if no slot does or the parent is no directory |
| FatDriver.Driver.FatReadCluster | src/modules/fat/main.c:417-425 | copies at most one cluster's bytes to the buffer |
| FatDriver.Driver.FatRead | src/modules/fat/main.c:394-429 | returns the bytes of the found entry's chain, cut or padded with zeros to its size, and a NUL; panics for size 2^32 - 1 |
| Ide.ServeRequests | src/modules/ide/main.c:34-170 | every sequence of seeks, reads and writes is answered as by a flat byte array with an offset |
| Ide.ReadBack | src/modules/ide/main.c:34-170 | what was written reads back after any requests that spare it; past the end zeros read back |
| Ide.SparedByte | src/modules/ide/main.c:98-170 | a byte that no write covers keeps its value over any requests |
| Bytes.FlatReadAt | src/modules/ide/main.c:34-96 | byte k that is read is the one k addresses on, modulo 2^32, and 0 past the end |
| Bytes.FlatWriteAt | src/modules/ide/main.c:98-170 | byte k that is written goes k addresses on, modulo 2^32 |
| Ide.IdeDrive.IDEReadFunction | src/modules/ide/main.c:34-96 | reads any offset and length, zeros past the end, and moves the offset on |
| Ide.IdeDrive.IDEWriteFunction | src/modules/ide/main.c:98-170 | writes any offset and length, keeping the other bytes of partial sectors and dropping what lies past the end |
| Ide.IdeDrive.IDEReadSectors | src/modules/ide/main.c:657-685 | reads the sector that the registers address, or reports that it lies past the end |
| Ide.IdeDrive.IDEWriteSectors | src/modules/ide/main.c:687-709 | writes the sector that the registers address, or reports that it lies past the end |
| TaskFile.CommandBlock.IDEAccess | src/modules/ide/main.c:447-545 | the command and address bytes for each mode, from which the drive decodes the sector asked for, exactly outside the range that cylinder/head/sector cannot address |
| TaskFile.LbaRegisters | src/modules/ide/main.c:462-496 | the address bytes decode to the sector number in each of the three modes |
| TaskFile.ChsRoundTrip | src/modules/ide/main.c:486-495 | cylinder, head and sector stand for the sector number modulo 65536 * 1008 |
| TaskFile.ChsBeyondLimit | src/modules/ide/main.c:486-495 | sector 65536 * 1008 is addressed as sector 0 |
| TaskFile.CommandBlock.IDEWrite | src/modules/ide/main.c:195-209 | registers 8 to 11 are second writes to ports 2 to 5, whose earlier byte becomes the high-order part |
| ElfRelocate.RelocateModule | src/ia32/module.c:46-207 | the loops run the patches that the original image lists, in order, in place, and fail as that run does; ElfFormulas says what these store |
| ElfFormulas.RelocatedIA32 | src/ia32/module.c:61-206 | for result 0 and disjoint sites, what each relocation number leaves at its site: S + A, S + A - P, S or B + A |
| ElfFormulas.RelocatedAMD64 | src/amd64/module.c:62-217 | the same for amd64, with 8-byte words and 4-byte displacements |
| ElfFormulas.UntouchedIA32 | src/ia32/module.c:61-206 | bytes that no entry with a storing number covers keep their values |
| ElfFormulas.UntouchedAMD64 | src/amd64/module.c:62-217 | the same for amd64 |
| ElfFormulas.RelocationFailsIff | src/amd64/module.c:100-115 | the result is -1 exactly if an entry that applies has an undefined symbol whose name the kernel does not know |
| ElfFields.SectionFields | src/amd64/module.h:8-42 | where section headers and their fields lie, byte by byte, for both word sizes |
| ElfFields.SymbolFields | src/amd64/module.h:44-52 | where the fields of a symbol lie |
| ElfFields.EntryFields | src/amd64/module.h:54-71 | where the fields of REL and RELA entries lie |
| ElfFields.AppliesIff | src/ia32/module.c:61-75 | which entries apply: those of kind 4 or 9 for a section with flag 2 |
| ElfFields.SymbolsAre | src/ia32/module.c:49-59 | symbols and names are those of the first section of kind 2 |
| ElfFields.SymbolValueIs | src/ia32/module.c:83-112 | the symbol value used, by section index, flag, kind and name |
| ElfLaws.RunIsSimultaneous | src/amd64/module.c:62-217 | when no two entries store the same byte, every site ends up with the value its entry has in the original image |
| ElfLaws.ValueSame | src/amd64/module.c:160-216 | what an entry stores depends on no byte of memory besides those it stores |
| ElfLaws.RunFrame | src/amd64/module.c:62-217 | bytes that no entry stores never change, even when relocation fails |
| ElfLaws.RunFailsIff | src/ia32/module.c:100-108 | relocation fails exactly if some symbol is unresolved |
| ElfLaws.BaseShift | src/amd64/module.c:62-217 | relocating at two addresses gives words that differ by the shift, by minus the shift or not at all, as the entry's kind and symbol say |
| ElfLaws.DisplacementReaches | src/amd64/module.c:196-202 | a stored 32-bit displacement, sign-extended, reaches S + A exactly within 2 GB |
| ElfLaws.DisplacementTooFar | src/amd64/module.c:196-202 | in every image the displacement stored for a goal 2 GB ahead of its site misses it |
| ElfMeaning.RelocatedEntries | src/ia32/module.c:46-207 | result 0 leaves in the site of each entry of each section that applies what the entry stores, computed from the original image |
| ElfMeaning.SymbolValueIff | src/amd64/module.c:163-188 | the symbol value used is that of the ABI exactly unless the entry is of a REL section and the symbol absolute and not 0 |
| ElfMeaning.RelocatedByStandard | src/ia32/module.c:61-206 | so all other sites hold what the ABI symbol value gives |
| ElfExample.ImageLoads | src/ia32/module.c:46-60 | a module with REL entries for an absolute symbol and for symbol 0 passes the checks and relocates |
| ElfExample.AbsoluteInRelFails | src/ia32/module.c:156-181 | its site for the absolute symbol of value 5 is left at 7 where the ABI gives 12 |
| ElfExample.NullSymbolInRel | src/ia32/module.c:156-181 | its site for symbol 0 holds what the ABI gives |
| ElfExample64.ImageRelocated | src/amd64/module.c:62-217 | what relocation leaves in an amd64 module with an entry of every kind |
| ElfRelocate.FindSymtabIs | src/ia32/module.c:49-59 | the symbol table used is the first section of that kind |
| ElfLoad.FindSymbol | src/ia32/module.c:5-44 | the address of the first symbol with the name, or 0 |
| ElfLoad.FindSymbolAgrees | src/ia32/module.c:26-30 | for a symbol of a loaded section it is the address that relocations use |
| ElfLoad.SymbolAddressIs | src/ia32/module.c:16-38 | the address of absolute, common, undefined and section symbols |
| ElfLoad.LoadModule | src/ia32/module.c:235-285 | only relocatable ELF images are touched, and a module is loaded exactly if all its symbols resolve |
| SchedModel.Isolation | src/kernel/sched/core.c:15-45 | over every run each process has the registers of a private processor that sees only its own events |
| SchedModel.StepContext | src/kernel/sched/core.c:15-144 | one event changes the registers of at most the process that executes or is created |
| SchedModel.RoundRobin | src/kernel/sched/core.c:27-45 | without creation and exit, t ticks move the cursor t places around the list |
| SchedModel.EachRunsOnce | src/kernel/sched/core.c:27-45 | with n processes and no creation or exit, n ticks let every process run exactly once |
| SchedModel.NoStarvation | src/kernel/sched/core.c:27-45 | without exits every process runs within its distance from the cursor plus one tick for each creation |
| SchedModel.SkipEndsIff | src/kernel/sched/core.c:30-41 | the skipping loop ends exactly if there is a node besides "self" |
| SchedModel.AheadRuns | src/kernel/sched/core.c:27-45 | a process ahead of the cursor runs after as many ticks as it is ahead, whatever is created meanwhile |
| SchedModel.CursorWraps | src/kernel/sched/core.c:27-45 | the cursor comes back to the list's head with every process still on the list |
| SchedModel.NamesDistinct | src/kernel/sched/core.c:86-104 | live processes have different names, none of them "self", until 2^32 were created |
| Sched.Kernel.NextProcess | src/ia32/sched/switch.s:7-76 | the trap is one Tick of the transition system, and no task image changes behind its registers |
| Sched.Kernel.CommitProcessSave | src/kernel/sched/core.c:15-19 | the running process's image gets the registers; its number, descriptors and base directory stay |
| Sched.Kernel.CommitProcessLoad | src/kernel/sched/core.c:21-25 | the scratch registers become those of the running process |
| Sched.Kernel.CommitNextProcess | src/kernel/sched/core.c:27-45 | the next process in the list, "self" skipped, runs; "self" links to it |
| Sched.Kernel.SchedulerCreateProc | src/kernel/sched/core.c:86-104 | the new process is the first child of /proc, with its name, and with registers, number, an empty descriptor list of index -1 and the root as base directory at their offsets |
| Sched.Kernel.SchedulerInitialise | src/kernel/sched/core.c:106-113 | process 0 exists and runs |
| Sched.Kernel.SchedulerExit | src/kernel/sched/core.c:115-144 | the running process leaves the list, which stays a well-formed doubly linked list of the others |
| Sched.Kernel.Serve | src/kernel/sched/core.c:15-144 | every run of creations, exits, traps and execution on the kernel is that run of the transition system, and every live process keeps its number and the bytes it was created with behind its registers |
| Sched.Kernel.SkipCurrent | src/kernel/sched/core.c:118-129 | the walk ends at the predecessor of the running process, or the head is moved on |
| Sched.TaskWriteFunction | src/kernel/sched/core.c:47-58 | copies to the start of the image and nowhere else, or reports that the request exceeds it |
| Sched.TaskReadFunction | src/kernel/sched/core.c:60-71 | copies from the start of the image, or reports that the request exceeds it |
| Sched.SavedImage | src/kernel/sched/core.c:15-19 | an image with new registers has the same number and the same bytes behind them |
| VfdModel.RunOk | src/kernel/vfs/vfd.c:32-84 | over every run of fewer than 2^32 opens a node is flagged exactly if one descriptor of one process references it, and numbers are unique and increase along each list |
| VfdModel.StepOk | src/kernel/vfs/vfd.c:32-84 | each open, close, creation and exit keeps that invariant |
| VfdModel.OpenUniqueIff | src/kernel/vfs/vfd.c:32-54 | whatever the counter, an open keeps descriptor numbers unique exactly if none of the live ones has the number it gives out |
| VfdModel.ClosedStaysClosed | src/kernel/vfs/vfd.c:32-54 | a closed descriptor number is never given out again |
| VfdModel.OpenPanicsIff | src/kernel/vfs/vfd.c:63-73 | open panics exactly if some process has the node open |
| VfdModel.ClosesOwnOnly | src/kernel/vfs/vfd.c:75-84 | a process can close its own descriptors and no other's |
| VfdModel.CloseUndoesOpen | src/kernel/vfs/vfd.c:32-84 | closing what was just opened gives back all lists and flags |
| VfdModel.ExitReleases | src/kernel/sched/core.c:131-137 | exit clears the flag of every node of the process and of no other |
| VfdModel.CloseAllIs | src/kernel/sched/core.c:131-137 | closing the first descriptor until none is left releases all of them |
| Vfd.Table.findb | src/kernel/vfs/vfd.c:8-18 | the entry before the first one with the index |
| Vfd.Table.find | src/kernel/vfs/vfd.c:20-30 | the first entry with the index; the head for index -1 |
| Vfd.Table.CreateEntry | src/kernel/vfs/vfd.c:32-54 | on the heap, a flag set and a descriptor with the next number at the end of the list |
| Vfd.Table.open | src/kernel/vfs/vfd.c:63-73 | on the heap, one Open step or a panic that changes nothing |
| Vfd.Table.close | src/kernel/vfs/vfd.c:75-84 | on the heap, one Close step or a panic that changes nothing |
| Vfd.Table.ExitFiles | src/kernel/sched/core.c:131-137 | on the heap, one Exit step |
| Vfd.Table.Spawn | src/kernel/sched/core.c:98-100 | a new process has a list of its head only |
| Vfd.Table.SwitchTo | src/kernel/sched/core.c:27-45 | another process runs: its descriptors are the current ones, and no list changes |
| Vnode.RegisterChildVNode | src/kernel/vfs/vnode.c:230-238 | the child becomes the first of a well-formed doubly linked list |
| Vnode.UnregisterVNode | src/kernel/vfs/vnode.c:271-283 | joins the neighbours, clears the node's links and changes nothing else |
| Vnode.UnregisterChild | src/kernel/vfs/vnode.c:271-283 | the other children stay listed exactly if the node was not the first or its parent field was set |
| Vnode.ForwardUnique | src/kernel/vfs/vnode.h:55-77 | a node has one list of children |
| Path.DefaultRelativeFindFunction | src/kernel/vfs/vnode.c:80-185 | the loop finds what the recursive lookup finds, panics and null dereferences included; and what every path of one component leads to, from the base and from the root |
| Path.FindComposes | src/kernel/vfs/vnode.c:80-185 | looking up p/q is looking up q where p leads, unless p leads to a link |
| Path.LookupComposes | src/kernel/vfs/vnode.c:94-177 | the same for the walk alone, links or not |
| Path.LookupIsWalk | src/kernel/vfs/vnode.c:94-177 | a lookup finds a node exactly if the walk over the components ends at it |
| Path.ComponentsOfJoined | src/kernel/vfs/vnode.c:97-112 | joining paths joins their components |
| Path.LongComponent | src/kernel/vfs/vnode.c:103-112 | a run of more than 127 characters is looked up as if a slash followed the first 127 |
| Path.LongNameNotFound | src/kernel/vfs/vnode.c:163-175 | no component finds a child whose name is longer than 127 characters |
| Path.NextPrevious | src/kernel/vfs/vnode.c:128-154 | "~next" and "~previous" undo each other, and "~last" is the child that "~next" does not leave |
| Path.FindChild | src/kernel/vfs/vnode.c:163-175 | the first child with the name |
| Strings.UlToString | src/kernel/string.c:6-26 | the buffer holds the number's text and zeros behind it |
| Strings.NameIsDecimalIff | src/kernel/string.c:18-23 | the text is the decimal numeral exactly if the inner digits are a palindrome |
| Strings.NameInjective | src/kernel/string.c:6-26 | different numbers have different texts |
| Strings.NameBelow1000 | src/kernel/string.c:6-26 | below 1000 the text is the decimal numeral |
| Strings.NameFits | src/kernel/string.c:8-16 | a 32-bit number has at most 10 digits, within the loop's bound |
| Strings.DigitCount | src/kernel/string.c:11-16 | as many characters as the number has decimal digits |
| Strings.Strnlen | src/kernel/string.c:52-63 | the position of the first NUL within the bound, or the bound |
| Strings.Strncmp | src/kernel/string.c:38-50 | 0 exactly if the strings agree up to the first NUL or the bound, else the difference of the first characters that differ |
| AllocModel.FreeUndoesAllocIff | src/kernel/vmem/alloc.c:5-47 | freeing a block gives back the bitmap exactly if its pages were consecutive |
| AllocModel.BlockWasFreeIff | src/kernel/vmem/alloc.c:5-34 | the block's own range was free exactly if the pages taken were consecutive |
| AllocModel.AllocOkIff | src/kernel/vmem/alloc.c:5-34 | live blocks stay disjoint and the bitmap their union exactly if the pages taken were consecutive |
| AllocModel.RunOk | src/kernel/vmem/alloc.c:5-47 | blocks stay so over every run of requests for one page or for consecutive ones |
| AllocModel.FreeAfterAlloc | src/kernel/vmem/alloc.c:11-31 | the lowest free pages are taken and the others stay free |
| AllocModel.FreeCount | src/kernel/vmem/alloc.c:36-47 | freeing a live block gives back as many pages as it has |
| AllocHeap.KfreeUndoesKallocIff | src/kernel/vmem/alloc.c:5-47 | the same through the header in memory, with the sizes that wrap |
| AllocHeap.EnoughPagesIff | src/kernel/vmem/alloc.c:9-10 | the pages taken hold the block and its header exactly if the sum does not wrap |
| AllocHeap.HeaderBytes | src/kernel/vmem/alloc.c:17-19 | the header is the size in four bytes and a null pointer |
| AllocHeap.HeapStaysSound | src/kernel/vmem/alloc.c:5-47 | over every run of kalloc, kfree and writes inside blocks, live blocks overlap nowhere and lie on pages in use, the bitmap is the union of their pages and each header has its size, if every request finds its pages consecutive and its size does not wrap |
| AllocHeap.KallocSoundIff | src/kernel/vmem/alloc.c:5-34 | an allocation keeps the heap sound exactly if its pages are consecutive and its size does not wrap |
| AllocHeap.KallocSafeIff | src/kernel/vmem/alloc.c:5-34 | the bytes asked for overlap no other block and lie on pages in use exactly if the pages are consecutive and the size does not wrap |
| AllocHeap.BytesStay | src/kernel/vmem/alloc.c:5-47 | over every such run a byte of a block keeps its value until its client writes it or frees the block |
| AllocHeap.FragmentedBlock | src/kernel/vmem/alloc.c:5-34 | with pages 0 and 2 free a block of 5000 bytes runs into the live block in page 1 |
| AllocHeap.FragmentedFree | src/kernel/vmem/alloc.c:36-47 | freeing that block frees page 1 under its owner and leaves page 2 in use without one |
| AllocHeap.KallocKeepsBlocks | src/kernel/vmem/alloc.c:11-31 | kalloc changes no byte of a page in use |
| AllocHeap.KfreeSound | src/kernel/vmem/alloc.c:36-47 | on a sound heap kfree, which goes by the header, clears exactly the pages of its block |
| AllocHeap.WriteSound | src/kernel/vmem/alloc.c:17-19 | a write inside a block behind its header keeps the heap sound |
| Alloc.Memory.kalloc | src/kernel/vmem/alloc.c:5-34 | takes the lowest free pages, zeroes them and writes the header, as the step of the heap does, or runs out of memory |
| Alloc.Memory.kfree | src/kernel/vmem/alloc.c:36-47 | clears as many pages as the header says, from the header's page on; for a live block that is the step of the heap |
| Alloc.Memory.LiveBlocksMayBeFreed | src/kernel/vmem/alloc.c:36-47 | on a sound heap every live block may be freed |
| Alloc.Memory.MStat | src/kernel/vmem/bitmap.c:9-23 | counts the free pages |
| Alloc.Memory.GetFreePage | src/kernel/vmem/bitmap.c:25-38 | takes the first free page, or returns -1 |
| Alloc.Memory.FreePage | src/kernel/vmem/bitmap.c:40-47 | clears one page's bit and no other |
| Alloc.Memory.AllocatePage | src/kernel/vmem/bitmap.c:49-57 | takes the first free page and zeroes it |
| Alloc.BitsUpdate | src/kernel/vmem/bitmap.c:29-46 | setting or clearing a bit of one byte sets or clears one page |

## Left out

- FAT12 and FAT16 volumes, long file names, partition tables and mounting (`src/modules/fat/main.c:24-50`, `143-168`): other table formats that the chain loops do not end on, and input parsing.
- Deleting and overwriting files: the driver has no such operations.
- ATAPI drives, absent drives, drive errors, polling and port I/O (`src/modules/ide/main.c`): the device is an array of sectors that succeeds.
- FatDriver.Driver.FatRead: for a corrupt chain that never ends, or one that leaves the data area while bytes are still to be read, nothing is stated; memory exhaustion is not modelled there.
- FatDriver.Driver.FatNextCluster: FAT32 volumes only.
- FatDriver.Driver.FatWrite: where packing loses bits and the place that comes out is neither 0 nor a slot of a data cluster (cluster numbers from 65536 on that leave 0 or 1, or slot indices from 256 on that leave a sector past the cluster), the entry lands outside the data clusters and nothing is stated; date fields are zero.
- FatClient.WriteThenRead: requires that no slot before the first free one carries the name, and that the place of that one is packed without loss; FatMap.RoundTrip and FatPacked.WritePackedIff say what happens otherwise.
- FatSession.WriteAllThenRead: requires that every free slot of the directory is packed without loss.
- FatClient.ReadView: an entry without a chain of its own, such as a subdirectory's or that of an empty file, must have size 0.
- Ide.IdeDrive.IDEReadSectors: one present ATA drive and one sector a call, as the read and write functions ask for.
- Ide.IdeDrive.IDEWriteSectors: likewise.
- TaskFile.CommandBlock.IDEAccess: the interrupt mask, polling, and the transfer of the data are not modelled.
- TaskFile.CommandBlock.IDEWrite: the control register that is set around registers 8 to 11 is not modelled.
- ElfMeaning.RelocatedByStandard: the ABI's types GOT32 and COPY, which the code treats like JUMP_SLOT, are not compared with the ABI's formulas.
- ElfLoad.LoadModule: the calls of the module's Init and constructors are not modelled.
- ElfRelocate.RelocateModule: tables and symbol names must lie inside the module's memory and no site may overlap a table, which the code does not check; counts beyond 2^31 are not modelled.
- Global offset tables (`src/ia32/module.c:132-135`), module constructors, and the call of a module's entry point: the code skips the first and the others run foreign code.
- Sched.Kernel.Serve: writes of a process image through its node (Sched.TaskWriteFunction) and of its descriptor list are not events of the run.
- SchedModel.AheadRuns: excludes exits, after which the code sets the cursor back to the list's head, so that a process can be kept from running.
- Sched.Kernel.NextProcess: the assembly that copies registers is one array copy each way; the flags that it sets in EFLAGS on resume and acknowledging the interrupt are not modelled.
- Sched.Kernel.SchedulerExit: the descriptor loop is Vfd.Table.ExitFiles, on a model of its own in which list heads are objects instead of bytes of the process image; freeing the image and the node is not modelled.
- Sched.Kernel.SchedulerCreateProc: /proc is a field instead of the result of a lookup.
- Sched.Kernel.SchedulerInitialise: the nodes /proc and "self" are made by the constructor.
- Sched.Kernel.CommitNextProcess: requires a process; SchedModel.SkipEndsIff says that its loop does not end without one.
- Vfd.Table.open: takes the node that the lookup returned; the lookup is Path.DefaultRelativeFindFunction.
- Vfd.Table.ExitFiles: freeing the descriptors is not modelled.
- Vfd.Table.close: a node marked for deletion is reported, and deleting its subtree is not modelled (nothing in the kernel sets the mark).
- Path.DefaultRelativeFindFunction: on a node whose children are on disk the default ConstructChildren callback panics; drivers that replace it are not modelled.
- AllocModel.RunOk: how many pages a block has is given by the map of live blocks; AllocHeap.HeapStaysSound takes it from the header, as kfree does.
- AllocModel.FreeCount: likewise; AllocHeap.KfreeSound says that the header gives the same count.
- Alloc.Memory.kfree: requires the pages that the header counts to lie within the bitmap, which the code does not check and every live block of a sound heap meets; page addresses are mathematical integers.
- Null arguments, which panic (`PanicIfNull`), are ruled out by non-null types.
- RegisterSiblingVNode, lseek, chdir and the read and write wrappers of descriptors: small members over the same lists.
- The arm32 and riscv ports, paging, PCI, terminals and the shell.
