# A verified model of the file system, the malloc lock and the Art-Net outputs of allwinner-bare-metal

This project models, in Dafny 4.11, the parts of the repository whose correctness depends on the most
interacting state, and proves what they keep in every state they can reach.

* **FatFs R0.13c** (`fatfs/ff.c`, as `fatfs/ffconf.h` configures it: read/write, 512-byte sectors, long names,
  UTF-8 names, a private buffer per file, no exFAT), as a stack of layers, each proved against a simpler object:
  * `Storage` - a block device whose transfers may fail; a failed write may leave anything in its sectors.
  * `FileSystem.Fatfs` - the one-sector write-back window with the mirrored second FAT, FAT entries, the cluster
    allocator and `f_getfree`. `View()` is the disk with the dirty window laid over it, `Fat()` the FAT as a plain
    sequence of numbers (`FatTable`), and `Chains` the theory of disjoint acyclic chains over such a sequence.
  * `FileIO.Fil` - `f_read`, `f_write`, `f_lseek` and `f_truncate`. `Contents()` is the byte string of the file;
    `FileState` holds one lemma for each kind of step, `FileBytes` the theory of bytes in chains of clusters,
    `FileRuns` the theorem over whole runs of one file, and `TwoFiles` the one over runs of two files in turn.
  * `Directory.Dir` - `dir_sdi`, `dir_next`, `dir_clear`, `dir_alloc`, `dir_find`, `dir_read` and `dir_register`
    over a table of 32-byte entries (`DirState`, `DirTable`), and the long-name entries (`LongNames`, with the hash of
    numbered names in `Crc`).
  * `Mount` - finding and checking a boot record; `Utf` - the UTF-8 interface of names.
* **The malloc lock** (`spinlock.c`, `libc_io.c`): `MallocLock`, a machine whose steps are single memory accesses
  of any number of cores in any order.
* **The Art-Net output ports** (`lib-h3/lib-artnet/src/artnetnode.cpp`): `ArtNetPorts` says what each event does to
  the ports as values and what every run keeps; `ArtNetNode.Node` is the node that changes them in place;
  `ArtNetOutcomes` says what each event comes to, of the fields of a port, the bytes of a packet and the clock alone.

A transfer reports failure through a result code. Contracts say what holds after success and what survives failure,
and that on a disk that does not fail (`disk.reliable`) the operation succeeds. Ghost parameters and fields (the chain
of a file, the chains of all others) only name what the proof speaks about. `hide` statements only narrow what the
verifier looks at.

Where one part of the model writes what another reads, the format is stated by itself too, on the bytes of the disk: the
bits of a FAT entry (`FatTable.EntryBits`), the place of a byte of a file (`FileState.ByteOnDisk`) and of a directory
entry (`DirState.EntryPlace`), the entries of a name (`LongNames.LfnOnDisk`, `DirTable.PlacedBytes`), which entries a
search and a listing see (`DirTable.ShortSearchExact`, `DirTable.ListedExactly`), and the boot record
(`Mount.BootRecordBytes`).

What the model shows about the code, beyond what it was meant to do:

* `f_getfree` on FAT16 and FAT32 counts the two reserved entries if they are zero. The count is that of the free
  clusters exactly when they are not (`Chains.ReservedEntriesCounted`). After a disk error it stores in `free_clst` the
  count of the entries it came to, which is right exactly if no cluster behind them is free (`FileSystem.Fatfs.GetFree`).
* A long name of 254 or 255 units is written, but refused when it is read back (`DirTable.ReadRegistered`). One of 255
  units is never found again: its last part does not match itself (`LongNames.CmpPart`), and as its short name is a
  numbered one, the next search fails like the one before (`DirTable.PlacedLost`, `DirTable.FoundExactly`).
* `dir_clear` sets `winsect` before it writes. After a failure the window is in step with the disk if and only if it was
  not moved yet, or the first write succeeded, or what a failed first write left is zero, which it need not be
  (`Directory.DirClear`, `Directory.StaleWindow`).
* `f_truncate` leaves the sector buffer of the file over a cluster it has freed, if it cuts at a sector boundary. Once
  another file writes other bytes to that cluster, the buffer is marked clean and differs from its sector
  (`TwoFiles.StaleBuffer`). `TwoFiles.Bystander` says exactly when an operation of one file leaves the other in order.
* `find_volume` accepts volumes whose sector sums wrap around 32 bits. The geometry is sound exactly when none does
  (`Mount.AcceptedVolume`, `Mount.WrappingVolumeAccepted`).
* The decoder accepts overlong UTF-8: three bytes for a character below 0x800, and four bytes for one below 0x10000.
  An accepted decode is the form of RFC 3629 exactly if it is neither (`Utf.ShortestForm`).
* An Art-Net port that is switched to sACN, cleared there or caught there by a network loss, and switched back, shows
  an old frame (`ArtNetPorts.SwitchLosesFrame`, `ArtNetPorts.LossLosesFrame`). With direct update on, a repeated packet
  in synchronous mode takes back the pending mark of a frame that was not shown (`ArtNetPorts.RepeatLosesFrame`).
  `ArtNetPorts.CurrentStep` says exactly which events do such things.

## Model

| member | source | states |
|---|---|---|
| Volume.ClstToSectCorrect | fatfs/ff.c:1132-1140 | clst2sect answers non-zero exactly for the clusters of the volume, with a sector inside the data area; different clusters get disjoint sector ranges |
| FileSystem.Fatfs.SyncWindow | fatfs/ff.c:1042-1060 | writing back the window changes no logical sector outside the second FAT, whether or not the writes succeed; afterwards the window is clean exactly if the write succeeded; the mirror is lost exactly if it was before or the write of the copy failed, and while it is not every first-FAT sector equals its copy |
| FileSystem.Fatfs.CopyToSecondFat | fatfs/ff.c:1050-1056 | a mirror write that succeeds makes the copy equal its first-FAT sector and closes the gap; the mirror becomes lost exactly if it fails |
| FileSystem.Fatfs.MoveWindow | fatfs/ff.c:1064-1085 | after success the window shows the logical contents of the sector asked for; success or not, the logical contents of every sector outside the second FAT are kept, so that a failed write-back loses nothing; the mirror is lost exactly if it was before or a copy was missed, which happens only when a dirty first-FAT sector leaves the window |
| FatTable.StoredSame | fatfs/ff.c:1226-1275 | the bytes put_fat stores read back as the value truncated to the entry width, for FAT12, FAT16 and FAT32 |
| FatTable.EntryBits | fatfs/ff.c:1149-1183 | the FAT is one number, first byte lowest: entry c is its 12 bits from bit 12c on, its 16 from bit 16c on, or its 28 from bit 32c on |
| FatTable.TableLayout | fatfs/ff.c:1149-1183 | the same for the table of a volume, whose bytes are those of the sectors from fatbase on |
| FatTable.StoredOther | fatfs/ff.c:1226-1275 | storing an entry, or only the first bytes of it, leaves every other entry, the nibble-sharing FAT12 neighbour included |
| FatTable.StoredKeepsReservedBits | fatfs/ff.c:1264-1270 | the upper four bits of every FAT32 entry survive every store, whole or broken off |
| FatTable.EocReadsAsEnd | fatfs/ff.c:1149-1183 | a stored end mark reads as a number past the table and never as the disk-error code |
| FatTable.TableUpdate | fatfs/ff.c:1226-1275 | an image whose FAT bytes changed as put_fat changes them shows the table updated at one place |
| FileSystem.Fatfs.GetFat | fatfs/ff.c:1149-1183 | the entry of a cluster as the table has it, 1 for a number that is no cluster, 0xFFFFFFFF only for a disk error; nothing of the FAT changes |
| FileSystem.Fatfs.GetFat12 | fatfs/ff.c:1166-1172 | a FAT12 entry is put together from its two bytes even when they lie in two sectors |
| FileSystem.Fatfs.PutFat | fatfs/ff.c:1226-1275 | success updates the table at one entry with the truncated value; a disk error leaves every other entry; the upper four bits of every FAT32 entry survive; a number that is no cluster changes nothing; sectors outside the FATs keep their contents |
| FileSystem.Fatfs.FindFree | fatfs/ff.c:1573-1586 | the wrap-around search ends from every hint; 0 means that no cluster is free, 1 that some entry is 1, any other answer is a free cluster |
| FileSystem.Fatfs.PickCluster | fatfs/ff.c:1560-1586 | the neighbour of the chain end is taken if it is free, else the search decides; the answers mean the same |
| FileSystem.Fatfs.CreateChain | fatfs/ff.c:1511-1602 | the new table is the old one with a free cluster linked behind the given one, or the existing link is followed; 0 means a full volume, or a free count of zero; with an exact or unknown count it means a full volume; the count stays exact or unknown; a disk error leaves every entry in use but that of the given cluster |
| Chains.CreatedForest | fatfs/ff.c:1521-1602 | stretching appends one cluster that was free to exactly one chain of the forest and leaves all others; inside a chain nothing changes |
| Chains.CreatedNewChain | fatfs/ff.c:1521-1602 | create_chain(0) adds a one-cluster chain on a cluster nobody owned |
| Chains.ZerosAfterLink | fatfs/ff.c:1586-1596 | linking in a free cluster leaves one free cluster less |
| FileSystem.Fatfs.RemoveChain | fatfs/ff.c:1416-1473 | ends on arbitrary FAT contents, cycles included, having freed a path of links from the cluster asked for as far as it goes, with the predecessor ended; an internal error only if an entry is 1 or a number is no cluster; after a disk error the path followed so far is free and every other entry but the predecessor and the next cluster is as before; after success, with a predecessor in use or none, the count stays exact or unknown |
| FileSystem.Fatfs.FreeFrom | fatfs/ff.c:1441-1473 | the loop frees exactly the clusters of the path it follows and stops at a free cluster, the end mark or an error; after a disk error only the entry it was at may be other than that |
| Chains.RemovedForest | fatfs/ff.c:1416-1473 | on a well-formed chain the freed clusters are exactly those behind the cut, the prefix stays a chain and all other chains are unchanged |
| Chains.RemovedCount | fatfs/ff.c:1416-1473 | cutting a chain gives back exactly as many free clusters as it takes off the chain |
| Chains.PathIsSuffix | fatfs/ff.c:1441-1473 | the path that removal follows in a chain is the rest of the chain |
| Chains.ChainDistinct | fatfs/ff.c:1511-1602 | a chain that ends visits no cluster twice |
| Chains.ForestNoOnes | fatfs/ff.c:1416-1473 | in a forest no entry is 1, so that the internal-error answers cannot occur |
| Chains.CountAfterTake | fatfs/ff.c:1593-1596 | the free count stays exact or unknown when a cluster is taken |
| Chains.CountAfterFree | fatfs/ff.c:1450-1453 | the free count stays exact or unknown when a cluster is freed |
| Chains.ReservedEntriesCounted | fatfs/ff.c:4685-4702 | counting zero entries from entry 0 gives the number of free clusters if and only if entries 0 and 1 are non-zero |
| Chains.BrokenOffCount | fatfs/ff.c:4668-4707 | a count broken off at an entry is the number of free clusters if and only if none from there on is free, the reserved entries being in use where they are counted |
| FileSystem.Fatfs.CountPacked | fatfs/ff.c:4685-4702 | the sector scan counts the zero entries from entry 0 on, as get_fat would show them |
| FileSystem.Fatfs.GetFree | fatfs/ff.c:4650-4707 | a known count is returned as it is; else the count of the entries scanned, all of them after success, is returned and stored, after a disk error too; it is then exact if and only if no cluster behind the last entry scanned is free, given non-zero reserved entries on FAT16 and FAT32 |
| FileIO.Fil.FlushBuffer | fatfs/ff.c:3888-3891 | writing back the private buffer does not change the contents |
| FileIO.Fil.LocateForRead | fatfs/ff.c:3757-3777 | the current cluster becomes the one of the next byte |
| FileIO.Fil.ReadDirect | fatfs/ff.c:3778-3800 | whole sectors, clipped at the cluster, are the contents there, with the dirty buffer laid over what was read |
| FileIO.Fil.FetchRun | fatfs/ff.c:3786-3797 | a direct transfer with the dirty sector put in its place is the slice of the contents |
| FileIO.Fil.Read | fatfs/ff.c:3735-3825 | delivers exactly the slice of the contents at the pointer, as much as asked for and available, and moves the pointer past it; contents and FAT stay; whatever fails, all other objects are as they were |
| FileIO.Fil.NextCluster | fatfs/ff.c:3859-3884 | the next cluster of the chain, which grows by a free one at its end; zero only at the end of the chain on a volume that, when counted, has none |
| FileIO.Fil.LocateForWrite | fatfs/ff.c:3859-3884 | the current cluster becomes the one of the next byte, the chain growing by no more than that one; or the pointer is at the end of the chain and no cluster can be had |
| FileIO.Fil.BoundaryCluster | fatfs/ff.c:3861-3884 | at a cluster boundary: the head of the chain or the cluster behind the current one, taken from the free ones at the end of the chain; 0 only there |
| FileIO.Fil.StoreRun | fatfs/ff.c:3901-3916 | whole sectors written past the buffer are spliced into the contents, and the buffer follows if it holds one of them |
| FileIO.Fil.WriteDirect | fatfs/ff.c:3893-3917 | direct transfer, clipped at the cluster, splices what it took |
| FileIO.Fil.PutBytes | fatfs/ff.c:3924-3941 | a partial sector is spliced into the contents through the buffer, also at the growing edge of the file where the sector was not read |
| FileIO.Fil.Write | fatfs/ff.c:3835-3947 | the stored prefix of the data is spliced into the contents at the pointer; on a counted volume all of it is stored where the clusters of the file and the free ones have room and the end stays below 4 GiB, and up to byte 0xFFFFFFFE where it does not; it ends early only there, or at the end of the allocated chain when no cluster can be had; the chain grows exactly to the cluster of the last byte; whatever fails, the chains and sectors of all other objects are as they were |
| FileIO.Fil.SeekStart | fatfs/ff.c:4334-4354 | the search starts at the current cluster if the target lies in it or behind it, else at the head; both give an element of the chain and its offset |
| FileIO.Fil.SeekFollow | fatfs/ff.c:4355-4376 | following or stretching the chain arrives at the cluster of the target, or at the last one of a full volume; the chain grows no further than the cluster arrived at |
| FileIO.Fil.Lseek | fatfs/ff.c:4327-4400 | the pointer is the offset asked for, or the size when read-only, or the end of the allocated chain when no cluster can be had; the chain grows exactly to the cluster of the byte before the pointer; old contents stay, and the current cluster is that one; whatever fails, all other objects are as they were |
| FileIO.Fil.Truncate | fatfs/ff.c:4721-4762 | the contents are cut at the pointer, and the chain to exactly the clusters that hold them, or not at all when the pointer is at the end; the buffer stays as it is, clean after a cut, and can come to lie over a freed cluster only if the cut is at a sector boundary inside the file; whatever fails, all other objects are as they were |
| FileIO.Fil.CutTail | fatfs/ff.c:4735-4747 | removing the clusters from the k-th on leaves that prefix of the chain and its bytes |
| FileIO.Fil.constructor | fatfs/ff.c:3679-3695 | an open file starts at pointer 0 with nothing buffered, and the disk as it is then is what isolation is measured against |
| FileState.AfterStretch | fatfs/ff.c:1521-1602 | one cluster more, the same bytes, all invariants of the open file |
| FileState.AfterCut | fatfs/ff.c:4735-4747 | fewer clusters, the same bytes in them, all invariants of the open file |
| FileState.AfterBufferWrite | fatfs/ff.c:3924-3941 | bytes put into the buffer are bytes spliced into the file, whatever else the sector holds past its end |
| FileState.AfterDirectWrite | fatfs/ff.c:3901-3916 | sectors written directly are bytes spliced into the file |
| FileState.DirectRead | fatfs/ff.c:3786-3797 | consecutive sectors read directly, with the dirty buffer over them, are the bytes of the file |
| FileState.ClusterStart | fatfs/ff.c:4337-4341 | masking a position with the cluster size minus one gives the start of its cluster, element position / cluster bytes of the chain |
| FileState.OthersUntouched | fatfs/ff.c:3835-3947 | in every state of an open file, every sector of every other object is as it was when the file was opened |
| FileState.ByteOnDisk | fatfs/ff.c:1132-1140 | byte p of a file is byte p % 512 of sector p / 512 % csize of cluster p / 512 / csize of its chain, cluster 2 being the first of the data area, or of the dirty buffer over that sector |
| FileState.TornCut | fatfs/ff.c:4735-4747 | a cut that broke off leaves the chains and sectors of all other objects |
| FileState.TornLink | fatfs/ff.c:1521-1602 | so does a new link that broke off |
| FileState.TornRun | fatfs/ff.c:3901-3916 | and so does a direct transfer that broke off |
| FileRuns.Apply | fatfs/ff.c:3735-3947 | each call is one step of a plain byte string with a position, a number of clusters and a number of free ones, with the answer of that step |
| FileRuns.Run | fatfs/ff.c:3735-3947 | every sequence of reads, writes, seeks and truncations on a disk that does not fail is a run of that machine with its answers: how much a write stores and where a seek ends follow from the clusters left, overwriting always succeeds, and no cluster is lost; every other object keeps its clusters and bytes |
| FileRuns.StepDetermined | fatfs/ff.c:3735-3947 | on a volume whose free count is unknown or right, the state and the operation determine the answer and the next state, the bytes of a gap opened by a seek past the end apart |
| FileRuns.WriteStores | fatfs/ff.c:3835-3947 | a write step byte by byte: all is stored where there is room, up to 0xFFFFFFFF where the sum would wrap, else the volume is used up; every byte is the new one there and the old one elsewhere, and no cluster is taken that is not needed |
| FileRuns.SeekArrives | fatfs/ff.c:4327-4400 | a seek step arrives where there is room and else uses up the volume; old bytes stay, and no cluster is taken that is not needed |
| FileRuns.ReadGives | fatfs/ff.c:3735-3825 | a read step gives the bytes from the position on, as many as were asked for or are left |
| FileRuns.TruncateLeaves | fatfs/ff.c:4721-4762 | a truncation step leaves the bytes before the position and no cluster that holds none of them; the others are free again |
| FileRuns.WriteThenRead | fatfs/ff.c:3735-3947 | what a write stored is what a read at the same place returns, on every volume |
| FileRuns.RunKeeps | fatfs/ff.c:3735-3947 | in every run the clusters of the file and the free ones together stay the same number, and a right free count stays right |
| TwoFiles.Bystander | fatfs/ff.c:3735-3947 | an operation of one file leaves another open file as good as it was if and only if that one buffers no sector, one of its own chain, or one of a cluster that is free and whose contents the buffer has, unless it is dirty |
| TwoFiles.BystanderData | fatfs/ff.c:3735-3947 | if so, the contents of the other file are the same |
| TwoFiles.Turn | fatfs/ff.c:3735-3947 | one operation of one of two open files is a step of that file; the other one keeps bytes, position and clusters and sees only the number of free clusters change; only a truncation at a sector boundary inside its file can leave a buffer over a freed cluster |
| TwoFiles.Run | fatfs/ff.c:3735-3947 | every sequence of operations of two open files in any order gives, up to the first truncation at a sector boundary inside its file, before which it stops, the answers of two byte strings that share the free clusters; all third objects keep their sectors |
| TwoFiles.JointKeeps | fatfs/ff.c:3735-3947 | in every such run the clusters of both files and the free ones together stay the same number |
| TwoFiles.StaleBuffer | fatfs/ff.c:4721-4762 | on a full counted volume of one-sector clusters, a buffered file of one cluster is cut to nothing and an empty one then writes a sector: the first holds a clean buffer for a sector whose contents are other bytes |
| Directory.Dir.DirSdi | fatfs/ff.c:1683-1722 | success means the position of the entry at the offset, by cluster, sector and place in the window; it succeeds exactly for aligned offsets inside the table |
| Directory.Dir.DirNext | fatfs/ff.c:1731-1782 | the position of the next entry, for the static root and for chains of any cluster size; end of table exactly at its end; a stretched table is the old one with blank entries behind it; a refusal leaves everything as it was and means, with a right or unknown count, that no cluster is free; whatever fails, every sector in use and every FAT entry in use but the end of the chain survive |
| Directory.Dir.Walk | fatfs/ff.c:1683-1782 | n steps from the start arrive at the position of entry n and succeed exactly if there is such an entry |
| Directory.Dir.WalkAndSeek | fatfs/ff.c:1683-1782 | walking n entries and seeking to offset 32*n end at the same offset, sector and cluster, and on a disk that does not fail succeed for the same n |
| DirState.NextInChain | fatfs/ff.c:1753-1775 | at a cluster boundary the next entry is in the next element of the chain, or the table ends there |
| DirState.EntryPlace | fatfs/ff.c:1683-1722 | where entry n lies on the disk, in the root area or in the chain, sixteen to a sector; a table has at most 65536 entries |
| Directory.DirClear | fatfs/ff.c:1644-1673 | in every case the FAT and every sector outside the cluster and the second FAT are as before, and the sectors written before a failure, all of them after success, are zero, whatever unit the zeros are written in; the volume object is valid afterwards if and only if the window was not moved, or the first write succeeded, or the first sector of the cluster is zero |
| Directory.StaleWindow | fatfs/ff.c:1644-1673 | on every volume and for every cluster a first write that fails may leave anything in the first sector |
| Directory.ClearUnit | fatfs/ff.c:1658-1671 | the unit that memory allows divides the cluster size, so that the loop ends exactly at the cluster end |
| Directory.Dir.StretchTable | fatfs/ff.c:1757-1774 | the chain grows by one cluster of blank entries, other chains and all sectors outside stay; refusal leaves everything as it was and means a full volume when the count is exact; whatever fails, sectors and FAT entries in use survive, the end of the chain apart |
| DirState.Stretched | fatfs/ff.c:1757-1774 | a zeroed cluster behind the chain appends blank entries to the table and changes none |
| DirState.TableSurvives | fatfs/ff.c:1644-1673 | the table of the directory can be read from what survives exactly as it was |
| DirState.OthersSurvive | fatfs/ff.c:1644-1673 | every cluster of every other chain survives, with its FAT entry |
| Directory.Dir.DirAlloc | fatfs/ff.c:1792-1823 | a block of blank entries in a row that ends at the current position, in the old table extended by blank entries; a disk that does not fail refuses it if and only if neither the old nor the extended table has one, and then the table is static, at its size limit, or, with a right or unknown count, no cluster is free; a refusal and a failure keep all that is in use |
| DirTable.BeforeEnd | fatfs/ff.c:1792-1823 | with nothing live behind the end mark, the block found begins at or before the first end mark |
| LongNames.PutLfn | fatfs/ff.c:1945-1970 | the 32 bytes of the entry of a part: its units, terminator and filler, order, last flag and checksum |
| LongNames.EntryFacts | fatfs/ff.c:1945-1970 | order number, last flag, attribute and checksum of a written entry are read as they were meant; the last flag is on exactly the part that ends the name |
| LongNames.LfnOnDisk | fatfs/ff.c:1945-1970 | an entry is the one of a part of a name exactly if it has the bytes of the long-name format: order and last flag, attribute, checksum, zeros, and the units at bytes 1, 14 and 28 on |
| LongNames.PickLfn | fatfs/ff.c:1907-1937 | the buffer after picking an entry, and whether the entry was valid |
| LongNames.PickPart | fatfs/ff.c:1907-1937 | for names of up to 253 units picking part after part from the last down rebuilds the name |
| LongNames.PickPuts | fatfs/ff.c:1907-1937 | an entry that is picked, whatever it is, has put its units up to the terminator at their places, has filler behind it, and changes nothing else |
| LongNames.TooLongToPick | fatfs/ff.c:1920-1933 | a name of 254 or 255 units is refused |
| LongNames.CmpLfn | fatfs/ff.c:1871-1900 | whether an entry matches the name in the buffer up to case |
| LongNames.CmpPart | fatfs/ff.c:1871-1900 | a name matches each of its own entries under every case conversion, except the last part of a name of 255 units, which never matches |
| LongNames.CmpSame | fatfs/ff.c:1871-1900 | a name matches each entry of every name that is the same up to case, of up to 254 units |
| LongNames.MatchMeans | fatfs/ff.c:1871-1900 | a name all of whose entries match is the name in the buffer up to case, if the case conversion keeps the terminator apart |
| LongNames.SumSfn | fatfs/ff.c:2040-2051 | the checksum of the eleven bytes of the name, and of nothing else |
| LongNames.SumAppend | fatfs/ff.c:2040-2051 | each byte is added, in eight bits, to the checksum so far rotated right by one bit, from zero on |
| LongNames.HashName | fatfs/ff.c:1997-2008 | the bit loop computes the hash of the long name and the sequence number |
| LongNames.HashIsRemainder | fatfs/ff.c:1997-2008 | the hash is the one remainder of the long name, as a polynomial over two elements behind the sequence number, modulo x^16 + x^12 + x^5 + 1 |
| LongNames.NumberIs | fatfs/ff.c:1995-2007 | attempts 1 to 5 are numbered as they are, later ones by that remainder |
| LongNames.HexStandsFor | fatfs/ff.c:2009-2017 | the digits are 0 to 9 and A to F, have no leading zero and stand for the number |
| LongNames.GenNumname | fatfs/ff.c:1982-2030 | as much of the short name as has room in whole characters, none of them cut, a tilde, the number in hexadecimal and spaces, with the extension kept; the number is the one asked for up to 5, and then the hash of the long name |
| LongNames.NumberedUnique | fatfs/ff.c:1982-2030 | a short name and a number make one numbered name |
| Directory.Dir.DirFind | fatfs/ff.c:2412-2483 | the search stops where the scan of the table stops, and fails exactly when the scan does; after a failed search without loss no live entry before the end mark with bit 3 of byte 11 clear has the eleven bytes of the name |
| DirTable.NotFound | fatfs/ff.c:2445-2483 | after a failed search no object before the end mark has the short name |
| DirTable.ShortNameFound | fatfs/ff.c:2456-2470 | a search without loss stops at or before any such entry, subdirectories included |
| DirTable.ShortSearchExact | fatfs/ff.c:2456-2470 | a search by short name alone stops exactly at the first such entry |
| DirTable.ShortHit | fatfs/ff.c:2445-2483 | a search by short name alone that stops has come to an object of that name |
| DirTable.FindSound | fatfs/ff.c:2445-2483 | a search stops at an object that has the short name, or that follows a complete sequence of parts with its checksum which all match the long name |
| DirTable.HitMeans | fatfs/ff.c:2445-2483 | where that sequence is a registered long name, it is the name looked for, up to case |
| DirTable.FindComplete | fatfs/ff.c:2445-2483 | after a failed search no long name before the end mark is the same up to case, names of 255 units apart |
| DirTable.LongNameFound | fatfs/ff.c:2456-2470 | a search stops at or before an object whose entries have the bytes of a long name of up to 254 units that is the same up to case |
| DirTable.FoundExactly | fatfs/ff.c:2445-2483 | after a failed search and the registration the name is found, and then at its entry, if and only if it has at most 254 units or a short name that fits it |
| DirTable.PlacedLost | fatfs/ff.c:2445-2483 | after a failed search and the registration of a name of 255 units under a numbered short name the next search fails again |
| Directory.Dir.DirRead | fatfs/ff.c:2334-2400 | the read stops where the scan of the table stops, with the long name it rebuilt |
| DirTable.ReadRegistered | fatfs/ff.c:2369-2389 | a read that comes to the entries of a name returns its object, and with the long name, exactly as it was, if and only if that has at most 253 units |
| DirTable.ReadSound | fatfs/ff.c:2369-2389 | a long name that a read returns comes from a complete sequence of parts right before the object, all with its checksum, and is what they say |
| Directory.Dir.ReadDir | fatfs/ff.c:4509-4534 | one call returns the object the scan of the table comes to and goes on behind it; at the end it returns none |
| Directory.Dir.List | fatfs/ff.c:4509-4534 | reading on until nothing comes gives the listing of the table |
| DirTable.ListingComplete | fatfs/ff.c:2334-2400 | every object before the end mark is listed |
| DirTable.ListedExactly | fatfs/ff.c:2366-2390 | by its bytes, an entry is listed exactly if it is live, no dot entry, no volume label and no part of a long name, and no end mark is before it |
| DirTable.ListedNames | fatfs/ff.c:2334-2400 | every long name of a listing is one that the table has, in that sense |
| DirTable.ListingHas | fatfs/ff.c:2334-2400 | a listing that starts anywhere before a registered name has its object, and with the long name exactly up to 253 units, whatever objects, deleted entries and broken sequences come before |
| DirTable.RegisterUnique | fatfs/ff.c:2539-2585 | after a failed search for the short name, registration leaves no two objects with the same short name |
| DirTable.PlacedLongUnique | fatfs/ff.c:2539-2585 | after a failed search for the long name, registration leaves no two long names the same up to case, names of 255 units apart, and no long-name entry without its object |
| DirTable.RegisterEnded | fatfs/ff.c:2553-2585 | nothing live follows the end mark afterwards |
| DirTable.PlacedBytes | fatfs/ff.c:2553-2585 | by the bytes: registration takes deleted entries and ones behind the end mark, changes no others, and leaves the parts of the long name, the short name, the case flags and zeros |
| Directory.Dir.NumberName | fatfs/ff.c:2540-2550 | the first of the numbered forms of the short name that the search does not find, all earlier ones being names of objects; refused only if all 99 are |
| DirTable.FreeName | fatfs/ff.c:2540-2550 | with nothing live behind the end mark, a numbered form that the search does not find is one that no object has |
| DirTable.TakenByFive | fatfs/ff.c:2540-2550 | if all 99 numbered forms of a name are taken, the table has at least five objects |
| Directory.Dir.StoreLong | fatfs/ff.c:2555-2567 | the long-name entries in place, last part first, and every other entry as before, also after a failure |
| Directory.Dir.DirRegister | fatfs/ff.c:2493-2588 | the object is in a block that was blank; whatever fails, every live entry, every sector in use elsewhere and every FAT entry in use but the end of the chain stay; a refusal leaves the table as it was but for blank entries behind it, and means that there was no room, or that a numbered name was needed and all 99 forms were taken; with nothing live behind the end mark it does not succeed when they are; nothing live follows the end mark; short and long names stay different; the name is found again as FoundExactly says and listed; outside the table and the FAT the disk is as it was |
| DirTable.PlacedRead | fatfs/ff.c:2369-2389 | listing the directory from its first entry returns what was registered, with exactly its long name up to 253 units |
| Mount.FindVolume | fatfs/ff.c:3268-3284 | the boot record is in sector 0 or in a partition of the table; on a disk that does not fail it is the first such one, mounting succeeds exactly if its layout is accepted, and a disk error is reported exactly if there is no sector 0, or no volume is found and the last partition starts past the end |
| Mount.CheckFs | fatfs/ff.c:3185-3203 | what a sector is: a FAT boot record, another, none, or unreadable |
| Mount.BootSectorBytes | fatfs/ff.c:3185-3284 | from the bytes of the disk: sector 0 if it is a FAT boot record, else the start of the first partition that has one |
| Mount.AcceptedVolume | fatfs/ff.c:3352-3401 | an accepted volume has a sound geometry if and only if no sector sum of it exceeds 32 bits |
| Mount.BootRecordBytes | fatfs/ff.c:3352-3401 | from the bytes of a boot record whose system area fits 32 bits: exactly when it is accepted, its type and sizes, and, where no sum wraps, where FAT, root and data area start, the FAT32 root cluster included |
| Mount.WrappingVolumeAccepted | fatfs/ff.c:3352-3401 | a FAT16 volume of 5000 sectors at sector 0xFFFFF000 is accepted with a geometry that is not sound |
| Mount.Regions | fatfs/ff.c:3352-3401 | reserved, FAT, root and data areas follow one another without overlap and end inside the volume |
| DirState.MountedRoot | fatfs/ff.c:3352-3401 | mounting a FAT12 or FAT16 volume whose sums do not wrap gives the static root area the directory operations start from |
| Mount.EntryInside | fatfs/ff.c:3390-3401 | every entry of the FAT, both bytes of a FAT12 entry included, lies within its sectors |
| Mount.ClusterSizes | fatfs/ff.c:3362-3363 | the mask test accepts exactly the powers of two, up to 128 |
| Utf.RoundTrip | fatfs/ff.c:762-793 | decoding what put_utf writes for a Unicode scalar value gives it back, surrogate pairs included, and takes exactly those bytes, whatever follows |
| Utf.Writable | fatfs/ff.c:839-870 | put_utf writes something exactly for the UTF-16 forms of scalar values |
| Utf.Written | fatfs/ff.c:839-870 | what it writes is the form of section 3 of RFC 3629 |
| Utf.PairStandsFor | fatfs/ff.c:839-870 | a surrogate pair, high unit first, stands for 0x10000 and its twice ten bits, as in section 2.2 of RFC 2781 |
| Utf.Accepted | fatfs/ff.c:762-793 | every accepted decode is a scalar value of one to four bytes |
| Utf.OverlongRead | fatfs/ff.c:762-788 | three-byte forms of characters below 0x800 are accepted although put_utf never writes them |
| Utf.OverlongRead4 | fatfs/ff.c:762-788 | four-byte forms of characters below 0x10000 are accepted although put_utf never writes them |
| Utf.ShortestForm | fatfs/ff.c:762-793 | an accepted decode took the bytes that put_utf writes for the character if and only if the string starts with no overlong form |
| Utf.ReadChar | fatfs/ff.c:762-793 | the byte loop computes the decoding function |
| Utf.EncodeName | fatfs/ff.c:2671-2683 | the unit loop computes the encoding of a name, none if it is broken or does not fit |
| Utf.NameRoundTrip | fatfs/ff.c:2671-2683 | a name of scalar values that comes out is read back exactly |
| Utf.EncodedPaired | fatfs/ff.c:2671-2683 | only well-paired names come out |
| MallocLock.SpinInvStep | spinlock.c:6-33 | whatever core steps, at most one is between a successful store-exclusive and the releasing store, and the word says whether one is |
| MallocLock.InvStep | libc_io.c:554-591 | every step keeps the relation of count, owner and nesting depths that belongs to the point of the core inside |
| MallocLock.Safety | libc_io.c:554-591 | for any number of cores and any interleaving: mutual exclusion of the spin lock, at most one core inside the malloc lock, and with the spin lock free the count is its depth and the owner its number |
| MallocLock.Refines | libc_io.c:554-591 | every memory access is a step of an atomic recursive lock by the same core, or none |
| MallocLock.LockProgress | libc_io.c:558-580 | with the spin lock free a core that runs alone returns from a lock call one level deeper, after six steps if the malloc lock is free and seven if it has it; if another core has it, it is back after five steps with nothing changed |
| MallocLock.UnlockProgress | libc_io.c:582-591 | an unlock call returns one level less deep, after six steps, or seven from the last level |
| MallocLock.Releases | libc_io.c:554-591 | a core inside the spin lock that runs alone is out of it within five steps |
| MallocLock.NoDeadlock | libc_io.c:554-591 | for any number of cores, after any interleaving, every core in a call can still return from it, without help from outside |
| ArtNetNode.Node.StoreFrame | lib-h3/lib-artnet/src/artnetnode.cpp:601-625 | the frame in force is the one given, and changed says exactly whether it differs in length or contents |
| ArtNetNode.Node.MergeFrame | lib-h3/lib-artnet/src/artnetnode.cpp:627-661 | the maximum of both sources or the latest frame is in force, and changed says exactly whether it differs |
| ArtNetNode.Node.CheckMergeTimeouts | lib-h3/lib-artnet/src/artnetnode.cpp:663-691 | silent sources are forgotten, and the node stays in merge mode only while a port merges |
| ArtNetNode.Node.HandleDmx | lib-h3/lib-artnet/src/artnetnode.cpp:735-854 | the loop over the ports, which ends at a port that rejects the packet, computes the specified state |
| ArtNetNode.Node.HandleSync | lib-h3/lib-artnet/src/artnetnode.cpp:856-875 | every pending frame of an Art-Net port is handed to the output |
| ArtNetNode.Node.ClearPort | lib-h3/lib-artnet/src/artnetnode.cpp:977-999 | the frame is dark, and an Art-Net port shows it and runs |
| ArtNetNode.Node.SetNetworkDataLossCondition | lib-h3/lib-artnet/src/artnetnode.cpp:1008-1023 | Art-Net outputs stop, lengths and sources are reset |
| ArtNetNode.Node.Run | lib-h3/lib-artnet/src/artnetnode.cpp:1045-1116 | one pass of the node is one step of the specification |
| ArtNetPorts.DmxPort | lib-h3/lib-artnet/src/artnetnode.cpp:741-854 | a port sees the packet exactly if it is addressed and no earlier port rejects it, after a check for silent sources exactly if the node is in merge mode by then; no other port changes |
| ArtNetOutcomes.PacketReaches | lib-h3/lib-artnet/src/artnetnode.cpp:735-743 | a packet comes to every enabled Art-Net port of its address, up to the first that turns its sender away, and leaves all other ports as they are |
| ArtNetOutcomes.PacketSources | lib-h3/lib-artnet/src/artnetnode.cpp:745-825 | a sender is taken if a place is free or exactly one is its own; its frame and the time are kept at its place; a place that was silent for more than ten seconds is forgotten, the sender's own included |
| ArtNetOutcomes.PacketMerges | lib-h3/lib-artnet/src/artnetnode.cpp:627-691 | a port merges exactly if the other place was taken, or it merged before and nobody was silent |
| ArtNetOutcomes.PacketOutput | lib-h3/lib-artnet/src/artnetnode.cpp:745-851 | the frame, channel by channel, and whether the output shows it, waits for an ArtSync, or goes on as it was |
| ArtNetOutcomes.PacketLength | lib-h3/lib-artnet/src/artnetnode.cpp:738-739 | the length of a packet has its high byte first and counts for at most 512 |
| ArtNetOutcomes.SilentSource | lib-h3/lib-artnet/src/artnetnode.cpp:663-675 | a source heard within ten seconds keeps its address, one heard earlier loses it, and then the port no longer merges |
| ArtNetOutcomes.MergeModeEnds | lib-h3/lib-artnet/src/artnetnode.cpp:677-691 | a check for silence ends merge mode exactly if no port of the node merges any more |
| ArtNetOutcomes.SyncShowsPending | lib-h3/lib-artnet/src/artnetnode.cpp:856-875 | after an ArtSync no Art-Net port waits, each that did shows its frame, and others change only with direct update on |
| ArtNetOutcomes.WaitingFrameShown | lib-h3/lib-artnet/src/artnetnode.cpp:827-875 | with direct update off, whatever packets come in between, the next ArtSync shows a waiting port's frame of then |
| ArtNetOutcomes.ClearShowsDark | lib-h3/lib-artnet/src/artnetnode.cpp:981-1000 | a clear command makes 512 channels dark, shows them at an Art-Net port and touches no other port |
| ArtNetOutcomes.LossStops | lib-h3/lib-artnet/src/artnetnode.cpp:1008-1055 | once the configured time has passed without a packet, Art-Net outputs stop and lengths and senders are forgotten; before that nothing happens |
| ArtNetOutcomes.SyncModeEnds | lib-h3/lib-artnet/src/artnetnode.cpp:1094-1098 | synchronous mode ends with the first packet four seconds or more after the last ArtSync |
| ArtNetOutcomes.CommandsSet | lib-h3/lib-artnet/src/artnetnode.cpp:908-975 | the other commands set what they name at their port, and change no frame and no output |
| ArtNetPorts.AcceptedOutput | lib-h3/lib-artnet/src/artnetnode.cpp:758-810 | the frame in force is the packet for a single source or LTP, and for HTP channel by channel at least that of both sources and one of them, also when a source timed out in the same step |
| ArtNetPorts.RejectedOutput | lib-h3/lib-artnet/src/artnetnode.cpp:811-825 | a third source changes no frame, no buffer and no output |
| ArtNetPorts.ArrivedApart | lib-h3/lib-artnet/src/artnetnode.cpp:745-825 | the two source addresses stay different unless zero, and no sender is ever found in both |
| ArtNetPorts.SourcesApart | lib-h3/lib-artnet/src/artnetnode.cpp:745-825 | the same in every reachable state |
| ArtNetPorts.CurrentStep | lib-h3/lib-artnet/src/artnetnode.cpp:827-851 | an event leaves the output of a port up to date if and only if it does not silence the port: no clear or network loss on a running sACN port with another frame, and with direct update on no repeated packet that takes back the pending mark of a frame not yet shown |
| ArtNetPorts.PortInvariants | lib-h3/lib-artnet/src/artnetnode.cpp:735-875 | over every run: sources apart, and the output up to date unless the port was silenced |
| ArtNetPorts.NoFrameLost | lib-h3/lib-artnet/src/artnetnode.cpp:735-1023 | in every run with direct update off that never selects sACN, a running port without pending data has last sent its current frame |
| ArtNetPorts.EveryPortCanRun | lib-h3/lib-artnet/src/artnetnode.cpp:893-931 | there is a run of two events after which any given port of any page runs |
| ArtNetPorts.SwitchLosesFrame | lib-h3/lib-artnet/src/artnetnode.cpp:977-989 | a lit port switched to sACN, cleared there and switched back is an Art-Net port that shows its old frame |
| ArtNetPorts.LossLosesFrame | lib-h3/lib-artnet/src/artnetnode.cpp:1008-1023 | a lit port switched to sACN, caught there by a network loss and switched back is an Art-Net port that shows its old frame |
| ArtNetPorts.RepeatLosesFrame | lib-h3/lib-artnet/src/artnetnode.cpp:827-851 | with direct update on, two equal packets of the only source in synchronous mode leave the first port addressed, which runs and showed another frame, with nothing pending and the old frame shown |
| ArtNetPorts.RepeatLosesFrameFromStart | lib-h3/lib-artnet/src/artnetnode.cpp:827-851 | with direct update on, five events from the start bring any port there |

## Left out

- exFAT, fast seek, f_expand, f_mkfs, labels, string functions and file-lock tables: compiled out by the configuration.
- Path following, create_name, f_open, f_mkdir, f_rename, f_unlink, f_sync and directory removal: they only string the modelled operations together; the upper-case conversion of the code page is a parameter.
- FSInfo: its counters enter as arguments of the constructor, and writing it back is not modelled, because the result of that write is ignored.
- The drive and mount tables, validate and the volume lock: the model starts from a mounted volume and calls that do not overlap.
- The caller's memory: data read and written are values, so that a user buffer that overlaps the file object is not modelled.
- `_sbrk_r` and the descriptor table of libc_io.c: simple updates under one lock.
- Weak memory ordering: the lock machine is sequentially consistent with an exclusive monitor that may be lost at any time.
- Art-Net poll replies, diagnostics, RDM and time code: field copying. The port assignments and the command of one ArtAddress packet are separate events.
- FileIO.Fil.Lseek: after a failed seek nothing is said about the file object itself, because the code returns from the middle of its walk.
- FileIO.Fil.Write: after a disk error nothing is said about the contents of the file itself.
- FileIO.Fil.Truncate: after a disk error nothing is said about the contents of the file itself.
- TwoFiles.Run: stops before every truncation at a sector boundary inside its file, also one after which the buffer is not disturbed; what reads return from a stale buffer is not followed.
- Directory.Dir.DirRegister: the attribute, times and start cluster of the new object are left zero here and are set by the callers.
