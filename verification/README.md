# Verified model of the RISC-V emulator core

This Dafny project models the parts of the emulator whose correctness is hard to see from the code: the
software MMU of the TinyEMU copy in `temu/`, its HTTP block device, its in-memory file system, the
interpreter's fetch loop, a handful of codecs and transfer machines, and the second Sv39 walker in
`csr_file.h`. It proves that caches agree with what they cache, that asynchronous machines answer once,
that counts and totals are exact over every run, and that codecs are inverted by their readers.

Most components come in two forms. A module of functions on values says what one operation does to the
state; lemmas prove invariants, refinements and round trips about it. A class holds the same state in
mutable fields and arrays, with methods that loop and update in place as the source does; each method is
proved equal to its function. `dafny verify dfyconfig.toml` checks everything.

| component | value model and proofs | mutable form |
|---|---|---|
| physical memory, page walk, TLBs | `PhysMem`, `PageWalk`, `Cpu`, `Mmu`, `MmuProofs`, `MmuHazards`, `Unaligned`, `CpuLaws` | `RiscvCpu` |
| traps, control registers, privilege | `Traps`, `TrapRuns`, `TrapLaws`, `CsrLaws`, `Privilege` | `RiscvCpu` |
| dirty pages | `Dirty`, `DirtyRuns` | `MemoryRange` |
| second Sv39 walker | `SecondWalker` | (a pure computation) |
| fetch loop, multiplication | `FetchLoop`, `Guests`, `FetchWalk`, `CodeBlock`, `WalkInterp`, `Multiply` | `FetchLoop.InterpX`, `FetchLoop.RunFor` |
| HTTP block device | `BlockNet`, `BlockNetProofs`, `BlockNetRuns` | `BlockDevice` |
| file system | `FsNet`, `FsData`, `FsSpace`, `FsNames`, `FsOps`, `FsContent`, `FsLoads`, `FsRuns`, `FsFrames`, `FsSystem`, `FsTree`, `FsCache` | `FsDevice` |
| CBC and streaming decryption | `Cbc`, `DecryptFile` | `Cbc.CbcDecrypt`, `DecryptFile` |
| flattened device tree | `Fdt` | `FdtWriter` |
| IDE transfers | `Ide` | `IdeDrive` |
| file-name quoting | `Quoting` | `Quoting.QuotedStr`, `Quoting.ParseFname` |

`Arith`, `Bits`, `Sums` and `Options` hold division facts, words as bit sequences, sums over sequences
and optional values.

## What holds

- **The TLBs are invisible.** Over every run of loads, stores, fetches, CSR writes, flushes, traps and
  returns, the machine with its three TLBs produces the outputs and the state of a machine that walks
  the page tables each time (`MmuProofs.TlbTransparent`), unless the run meets one of four named
  hazards. Three of them are exact: `MmuHazards` proves the operation safe for every coherent TLB if and
  only if the hazard is absent. The fourth is a store into a page-table word that is still cached,
  which the architecture answers with `sfence.vma`. Setting accessed and dirty bits is never a hazard,
  self-mapped tables included (`MmuProofs.AccessedDirtyTransparent`).
- **Memory accesses mean what the architecture says.** Which accesses succeed is stated bit by bit of
  `mstatus`, `satp` and the leaf (`CpuLaws.AccessExact`), a load of any alignment is its byte loads
  (`Unaligned.LoadIsBytes`), it returns what a store left there (`Unaligned.LoadReturnsStore`), and an
  instruction is the bytes found at its addresses (`CpuLaws.FetchIsBytes`).
- **Traps and registers keep the modes apart.** Over every run traps go where `stvec`, `mtvec`, `medeleg`
  and `mideleg` were last set to send them (`TrapLaws.TrapGoesToVector`, `TrapLaws.DelegationFollows`),
  each CSR reads back what was written in its writable bits and no other changes
  (`CsrLaws.ReadAfterWrite`, `CsrLaws.OthersUnchanged`), and neither user nor supervisor code changes the
  state of a higher mode before it traps there (`Privilege.SupervisorConfined`).
- **The disk is a flat array.** Every run of requests and downloads leaves the array with the completed
  writes applied, and every request that was told to wait gets exactly one callback
  (`BlockNetRuns.FreshRunCorrect`).
- **The file system counts right.** `FsOps.StepExact` and `FsSystem.ServeExact` say of every operation
  exactly when it keeps reference counts, open counts, block totals, cache totals, buffers and waiting
  opens sound. Over every history of the others all of these hold (`FsSystem.HistoryIsSound`). The
  content of a file is what was downloaded, changed by the replay of its requests on a sequence of bytes
  (`FsSystem.DownloadHistory`, `FsSystem.HistoryContent`), names form a map that changes by the name
  operations only (`FsSystem.HistoryTree`, `FsTree.WalkExact`), and the cache is in the order of last use
  (`FsCache.CacheIsLru`).
- **No dirty page is lost.** With the CPU's loads, stores, fetches, traps and flushes and the devices'
  writes in between, the second of two reports lists exactly the pages stored to since the first
  (`DirtyRuns.ReportListsStores`), and every byte that changed is in one of them, except accessed and
  dirty bits that the page walk sets (`DirtyRuns.ReportShowsChange`).
- **The interpreter walks the tables.** Take any guest whose instructions are sequences of CPU operations
  with the ends the source has (`Guests`). Outside the hazards the loop, with its TLBs, code pointers and
  block checks, ends every run with the core, the registers and the cycles of a simple interpreter that
  walks the page tables for every fetch and access (`WalkInterp.InterpIsWalk`). It ends after at most one
  page of instructions past its budget (`FetchLoop.InterpX`). Both rest on even pcs, which every such
  guest keeps from the reset state on (`Guests.OpsKeepEven`, `RiscvCpu.RiscvCpuState.constructor`).
- **Codecs are inverted**: decryption whatever the chunking, the device tree, IDE sector addresses and
  whole transfers, quoted names.

## Where the code falls short of the natural claim

Each is modelled as the code has it, with the exact condition under which the claim holds.

- A trap taken in M with MPRV set and MPP other than M, an `mret` with MPRV set and MPP = M, and a
  `misa` write that changes the width leave stale TLB entries: no flush happens on these paths
  (`TrapHazardExact`, `MretHazardExact`, `MisaHazardExact`).
- An instruction that clears SUM while S executes a user page flushes the TLBs but goes on in its block,
  whose page no longer translates (`SumHazardExact`).
- `set_mstatus` tests the UXL bits of the value before it accepts SXL, so an illegal SXL can be stored;
  S mode then runs with a width that is neither 32 nor 64 (`SxlGuardExact`, `IllegalSxlWidth`).
- A block read is clamped at the end of the block, not of the cluster, so a read that starts in an
  unwritten cluster delivers old data for later written clusters of the same block (`ReadExact`).
  Writes are not affected.
- `bf_init_onload` accepts blocks of 2 and 4 sectors (1 and 2 KB), whose clusters are larger: copy on
  write then reads past the block's data (`ClusterFitsExact`).
- Prefetching the block of an earlier request would leave a loading block that nothing waits for; only
  the initial prefetch, before any request, is safe for every list (`PrefetchExact`).
- `fs_truncate` and `fs_write` compare sizes through a signed 64-bit difference: a growth of 2^63 or
  more passes for a shrink (`TruncateExact`, `WriteExact`).
- `fs_net_set_url` on an opened empty file makes it unloaded while open (`SetUrlExact`).
- A directory that was removed while a file holds it open can still be given entries. Closing its last
  file, or creating in it through that file, frees it with entries in it, against the assertion in
  `inode_free`; so can emptying a directory that is the last to name it (`DeleteExact`, `CreateExact`,
  `UnlinkExact`). Mkdir, symlink, mknod, link and rename are always exact.
- Renaming a file onto its own entry (same directory, same name) frees the entry and then reads it
  (`RenameFaultExact`).
- Giving up a file that waits for a download leaves the download with a file that is gone, unless the
  inode goes too (`DeleteSoundExact`).
- Nothing keeps MPP from naming the reserved privilege 2, and `mret` enters it; there a delegated
  interrupt is taken, and in M (`DisciplineExact`, `StepReserved`).
- The page walk writes accessed and dirty bits without marking the page of the table dirty: a load can
  change tracked RAM and the next report not list it (`CpuDirties`, `LoadUnreported`).
- `translate` computes physical addresses in 32 bits (`PaIsTruncated`, `WalkersAgree`); it checks A and D
  where `get_phys_addr` sets them, and does not check U, R and X. It ignores virtual address bits above
  38, so it answers at 2^39 where `get_phys_addr` faults (`NonCanonicalAnswered`); on a leaf both permit
  they agree exactly on canonical addresses (`CanonicalExact`).
- An unaligned load of 4 or 8 bytes that faults in its first part reports the address of the aligned word
  below it, not its own (`LoadFaultAddress`); stores report the first byte that faults (`StoreStops`).
- The fallback `mulh` and `mulhsu` subtract the wrong operand (`MulhExact`, `MulhsuExact`).
- When a later block of an IDE read cannot be read, `data_index` stays at the end of the
  buffer part in use, so the next port access lies outside it (`ReadDataExact`, `WriteDataExact`).
- `quoted_str` leaves a graphic string alone even if it starts with a double quote, which `parse_fname`
  then takes for an opening quote (`RoundTripExact`).

## Model

The methods of the mutable form that only repeat a function of the same name have no row.

| member | source | states |
|---|---|---|
| PhysMem.FindRangeIsFirst | temu/iomem.c:68-78 | the range found for a physical address contains it and no earlier range does; no range is found exactly when none contains it |
| PhysMem.RamPageUniform | temu/riscv_cpu.c:416-426 | in a page-aligned map every address of a page lies in the same RAM range, so one TLB entry can stand for the page |
| PhysMem.StoreFrame | temu/riscv_cpu.c:454-478 | a store of n bytes changes no byte outside them and no RAM word outside the words it touches |
| PhysMem.LoadAfterStore | temu/riscv_cpu_priv.h:253-281 | a load of n bytes right after a store of n bytes returns the stored bits |
| PageWalk.NeedWriteIffChanges | temu/riscv_cpu.c:273-283 | the walk writes a leaf back exactly when setting A (and D for a write) changes it |
| PageWalk.WalkIgnoresAD | temu/riscv_cpu.c:225-293 | on two memories that differ only by accessed and dirty bits that were set, every walk reads the same table words and reaches the same page or faults in both, self-mapped tables included |
| PageWalk.WalkFrame | temu/riscv_cpu.c:225-249 | a walk depends only on the table words it reads |
| PageWalk.UpdateSettles | temu/riscv_cpu.c:273-283 | after the write-back the same walk has nothing left to write |
| MmuProofs.AccessedDirtyTransparent | temu/riscv_cpu.c:244-293 | the write-back of one translation changes the target or fault of no translation (any address, any access kind), and repeating the translation writes nothing |
| MmuProofs.HitMeansWalk | temu/riscv_cpu_priv.h:253-281 | for a good entry, every address of its page resolves by the full walk to exactly the host byte the entry gives, with no change of state |
| MmuProofs.FillIsGood | temu/riscv_cpu.c:416-426 | the entry a slow access installs is good: it is what the walk after the access would find |
| MmuProofs.CoherentFill | temu/riscv_cpu.c:416-426 | filling an entry and writing A/D bits back keeps all three TLBs coherent |
| MmuProofs.LookupRefines | temu/riscv_cpu_priv.h:253-281 | fast path or slow path, a coherent lookup gives the same place, fault and new core state as the walk alone, and stays coherent |
| MmuProofs.FetchRefines | temu/riscv_cpu.c:539-585 | an instruction fetch through the code TLB gives what the walk gives and keeps coherence |
| MmuProofs.LoadRefines | temu/riscv_cpu.c:297-436 | a load of any size and alignment through the TLB gives the value, error and state of the load without TLB, including the two-page split |
| MmuProofs.Store1Refines | temu/riscv_cpu.c:439-521 | an aligned store that spares cached page tables refines the store without TLB and keeps coherence |
| MmuProofs.StoreBytesRefines | temu/riscv_cpu.c:446-453 | so does an unaligned store, byte by byte, with the error of the first byte that fails |
| MmuProofs.SatpModeStaysKnown | temu/riscv_cpu.c:935-957 | writes to satp keep its mode among Bare, Sv39 and Sv48, and a written mode out of these three takes effect |
| MmuProofs.SetMstatusKeepsInv | temu/riscv_cpu.c:674-699 | every mstatus write keeps the TLBs coherent |
| MmuProofs.WriteCsrKeepsInv | temu/riscv_cpu.c:906-1019 | every permitted write to a supervisor or machine CSR keeps the TLBs coherent, except a misa write that changes the width |
| MmuProofs.TrapKeepsInv | temu/riscv_cpu.c:1042-1120 | trap entry keeps the TLBs coherent unless it is taken in M while MPRV translates with another MPP |
| MmuProofs.MretKeepsInv | temu/riscv_cpu.c:1143-1157 | mret keeps the TLBs coherent unless MPRV is set and MPP is M |
| MmuProofs.SretKeepsInv | temu/riscv_cpu.c:1127-1141 | sret always keeps the TLBs coherent |
| MmuProofs.DropWritesKeepsInv | temu/riscv_cpu.c:609-626 | dropping write entries of a host range keeps the TLBs coherent |
| MmuProofs.StepRefines | temu/riscv_cpu.c:297-626 | one hazard-free operation on the machine with TLBs gives the output and core state of the machine without TLBs, and coherence is kept |
| MmuProofs.TlbTransparent | temu/riscv_cpu.c:297-626 | over every hazard-free run of loads, stores, fetches, CSR writes, flushes, traps and returns, outputs and final core state are those of the machine without TLBs |
| MmuHazards.TrapHazardExact | temu/riscv_cpu.c:1112-1117 | a trap in a given privilege and mstatus keeps every coherent TLB coherent if and only if it is not an M-mode trap with MPRV set and MPP other than M |
| MmuHazards.MretHazardExact | temu/riscv_cpu.c:1143-1155 | mret keeps every coherent TLB coherent if and only if not (MPRV and MPP = M) |
| MmuHazards.MisaHazardExact | temu/riscv_cpu.c:961-977 | a misa write keeps every coherent TLB coherent if and only if the new MXL is refused, is the old one, or names the width in use |
| MmuHazards.SumHazardExact | temu/riscv_cpu_template.h:1234-1275 | a write to mstatus or sstatus, after which execution goes on in its block, leaves the translation of every code page right if and only if it does not take SUM from S mode |
| Traps.FirstSetIsLowest | temu/riscv_cpu.c:1186-1197 | the interrupt chosen is the lowest set bit of the mask |
| Traps.PendingMaskIsRule | temu/riscv_cpu.c:1159-1184 | for a pending and locally enabled interrupt the mask agrees with the rule of global enables, if and only if the mode is not the unused H or the interrupt is not delegated |
| Traps.InterruptDiscipline | temu/riscv_cpu.c:1159-1197 | outside the reserved privilege, the interrupt taken is the lowest that is pending, enabled and globally enabled; none is taken exactly when there is none; in M none is taken with MIE clear and no delegated one is; it enters the mode it is delegated to and never lowers privilege |
| Traps.DisciplineExact | temu/riscv_cpu.c:1159-1197 | this discipline holds in every state of a privilege if and only if the privilege is not the reserved one |
| TrapRuns.StepReserved | temu/riscv_cpu.c:674-1157 | one operation of any kind reaches the reserved privilege, or an MPP that names it, exactly by writing it into mstatus |
| TrapRuns.RunDisciplined | temu/riscv_cpu.c:1159-1197 | over every run without such a write the interrupt taken at any point obeys the discipline |
| Traps.TrapNeverLowers | temu/riscv_cpu.c:1042-1120 | a trap ends in the mode the delegation registers name and never lowers privilege |
| Traps.TrapThenMret | temu/riscv_cpu.c:1083-1157 | a trap into M followed by mret with mepc and mstatus untouched restores privilege, pc and the interrupt enable of the trapped mode; the whole resulting mstatus is given |
| Traps.TrapThenSret | temu/riscv_cpu.c:1083-1141 | the same for a trap into S followed by sret |
| Traps.SxlGuardExact | temu/riscv_cpu.c:690-697 | the guard on SXL tests the UXL bits of the value: a value keeps SXL legal on every state if and only if its UXL is illegal or its SXL is legal |
| Traps.IllegalSxlWidth | temu/riscv_cpu.c:1021-1040 | entering S then selects a width that is 32 or 64 if and only if SXL is legal |
| Traps.SstatusKeepsSxl | temu/riscv_cpu.c:906-908 | a write through sstatus never changes SXL |
| RiscvCpu.RiscvCpuState.constructor | temu/riscv_cpu.c:1289-1321 | a fresh CPU has pc 0x1000, M mode, zero RAM and empty TLBs; it is coherent, and pc, vectors and saved pcs are even |
| RiscvCpu.RiscvCpuState.FlushTlbWriteRange | temu/riscv_cpu.c:609-626 | exactly the write entries into the host range are invalidated |
| RiscvCpu.RiscvCpuState.WalkTables | temu/riscv_cpu.c:225-293 | the level loop on byte addresses computes the walk on pages: same fault, same physical address, and the leaf written back exactly when A or D is missing |
| RiscvCpu.RiscvCpuState.GetPhysAddr | temu/riscv_cpu.c:188-294 | with MPRV, Bare, Sv39, Sv48, unknown modes, canonicality and truncation to the current width, the method computes the translation and its write-back |
| RiscvCpu.RiscvCpuState.TargetRead | temu/riscv_cpu.c:297-436 | a read of any alignment changes the state and returns the value as the specification of loads; an unaligned address never hits |
| RiscvCpu.RiscvCpuState.TargetWrite | temu/riscv_cpu.c:439-521 | a write of any alignment changes RAM, TLB and pending exception as the specification of stores |
| RiscvCpu.RiscvCpuState.ReadInsnPtr | temu/riscv_cpu.c:539-585 | a fetch gives the host pointer of the specification or the fault |
| RiscvCpu.RiscvCpuState.RaiseException | temu/riscv_cpu.c:1042-1120 | delegation, cause, epc, tval, status stack and vector follow the specification |
| RiscvCpu.RiscvCpuState.GetPendingIrqMask | temu/riscv_cpu.c:1159-1184 | the mask computed case by case is the specification's mask |
| RiscvCpu.RiscvCpuState.RaiseInterrupt | temu/riscv_cpu.c:1186-1197 | the interrupt the specification chooses is taken, and the TLBs follow the trap |
| BlockNetProofs.AddBlockKeeps | temu/block_net.c:144-168 | adding a block keeps numbers unique, evicts only loaded blocks, and leaves at most the maximum or only blocks still loading |
| BlockNetProofs.RwCorrect | temu/block_net.c:262-339 | from any point of a request the loop ends (measure: sectors left, then cluster still unwritten), keeps the cache equal to the origin image, has stored exactly the sectors advanced over, and stops either at the end or waiting on a loading block it depends on |
| BlockNetProofs.SubmitCorrect | temu/block_net.c:370-401 | a request answered 0 is finished: a write has changed the flat array by exactly its sectors, a read has delivered; answered 1 it is pending with all of this outstanding |
| BlockNetProofs.ArriveCorrect | temu/block_net.c:341-368 | a download either completes the pending request, with the same guarantee, or leaves it pending |
| BlockNetRuns.PrefetchExact | temu/block_net.c:200-237 | prefetching a block keeps the invariant if and only if it is not the current block or is already in the cache |
| BlockNetRuns.StepCorrect | temu/block_net.c:262-401 | one event of any kind keeps the invariant; requests and callbacks balance |
| BlockNetRuns.RunCorrect | temu/block_net.c:262-401 | over every run from any state that stands for an array, the device stands for that array with the completed writes applied, and callbacks plus the pending request equal the requests answered 1: each gets exactly one callback, a request answered 0 none |
| BlockNetRuns.FreshMatches | temu/block_net.c:475-483 | a fresh device stands for the image on the server |
| BlockNetRuns.FreshRunCorrect | temu/block_net.c:262-401 | over every run from a fresh device it stands for the image with the completed writes applied, with one callback for each request answered 1 but the pending one |
| BlockNetRuns.WaitingIsServed | temu/block_net.c:341-368 | the download a pending request waits for is outstanding, and when it arrives the request moves at least one sector |
| BlockNetRuns.NoStaleSmallBlocks | temu/block_net.c:290-310 | with blocks of one cluster no sector of any read is stale |
| BlockNetRuns.ReadExact | temu/block_net.c:286-310 | a read delivers the flat array for all contents of the written clusters if and only if no sector of it is stale |
| BlockNet.ClusterFitsExact | temu/block_net.c:311-326 | the copy of a cluster out of a block stays inside the block for every sector if and only if blocks are whole clusters |
| BlockDevice.BlockDeviceHttp.constructor | temu/block_net.c:475-483 | a fresh device: nothing cached, written or under way, room for at least one block |
| BlockDevice.BlockDeviceHttp.AddBlock | temu/block_net.c:144-168 | loaded blocks are evicted from the end until there is room, then the new block is first |
| BlockDevice.BlockDeviceHttp.RwAsync1 | temu/block_net.c:262-339 | the loop that copies, allocates clusters and starts downloads in place computes the specified request step |
| BlockDevice.BlockDeviceHttp.RequestAsync | temu/block_net.c:370-401 | a request sets the transfer up, runs it, and returns 0 or 1 as specified |
| BlockDevice.BlockDeviceHttp.UpdateBlock | temu/block_net.c:341-368 | the download is stored and the request resumed if it is the current block |
| BlockDevice.BlockDeviceHttp.StartLoadPrefetchGroup | temu/block_net.c:200-237 | the group's blocks that are missing are added as loading, in order |
| FsSpace.TotalsNonNegative | temu/fs_net.c:312-315 | the block total and the cache total, being sums over live inodes and cached files, never go negative |
| FsSpace.FreeKeepsBlocks | temu/fs_net.c:329-385 | freeing an inode takes exactly its blocks off the total |
| FsSpace.EntryDeleteKeepsSpace | temu/fs_net.c:545-558 | removing an entry takes exactly its blocks off the directory and the total |
| FsNames.DecrefNames | temu/fs_net.c:387-393 | giving a reference up frees the inode exactly when no entry, file or credit uses it, and keeps the counts exact unless it frees a directory that has entries |
| FsNames.DecOpenNames | temu/fs_net.c:395-401 | the same for an open |
| FsOps.LiveIffUsed | temu/fs_net.c:387-401 | in a good state an inode is live exactly when it is the root, an entry names it or a file uses it, and both counts are the numbers of these |
| FsOps.FlushKeepsSearch | temu/fs_net.c:568-577 | emptying a directory changes no lookup in another directory |
| FsOps.DeleteExact | temu/fs_net.c:579-584 | closing a file keeps counts, space and cache exact if and only if it does not free a directory that has entries |
| FsOps.MkdirKeeps | temu/fs_net.c:650-666 | mkdir always keeps them exact, in a removed directory too |
| FsOps.MakeNodeKeeps | temu/fs_net.c:1382-1419 | so do symlink and mknod |
| FsOps.LinkKeeps | temu/fs_net.c:1370-1380 | so does link |
| FsOps.RenameKeeps | temu/fs_net.c:1433-1455 | so does rename, to a fresh name or over a file |
| FsOps.RenameFaultExact | temu/fs_net.c:1433-1455 | rename reads a freed entry or fails the assertion of inode_dir_add if and only if it names one non-directory twice, or the new parent is no directory |
| FsOps.CreateExact | temu/fs_net.c:1082-1105 | create keeps them exact if and only if it fails, or its file is not the last user of a removed directory |
| FsOps.UnlinkExact | temu/fs_net.c:1457-1475 | unlink keeps them exact if and only if emptying the directory does not free another one that lives on its entries alone and has entries of its own |
| FsOps.StepExact | temu/fs_net.c:586-666 | every operation on names keeps all counts and totals exact and meets the assertions, if and only if the state before is none of the cases above |
| FsOps.RunIsExact | temu/fs_net.c:387-401 | over every run of operations the source survives, from the empty file system: refcount is the number of entries (one more for the root), open_count the number of files, an inode exists exactly when one of them is used, and space and cache totals are exact |
| FsContent.TruncateRefines | temu/fs_net.c:1185-1244 | truncate keeps the prefix and grows with zeros, or reports no space and changes nothing; the size stays within the buffer |
| FsContent.TruncateExact | temu/fs_net.c:1185-1244 | the size stays within the buffer if and only if the growth is below 2^63; truncate succeeds exactly when blocks and memory for the new size are there, and always when the growth reaches 2^63 |
| FsContent.WriteRefines | temu/fs_net.c:1246-1281 | a write splices its bytes in, with zeros in the gap, or reports no space and changes nothing |
| FsContent.WriteExact | temu/fs_net.c:1246-1281 | a write succeeds, reports no space, or leaves its buffer: which of the three is decided by the blocks and memory for its end (wrapped to 64 bits) and by whether the growth reaches 2^63 |
| FsContent.ReadRefines | temu/fs_net.c:1162-1183 | a read returns the slice of the content at the offset, clipped at the end |
| FsContent.ReadAfterWrite | temu/fs_net.c:1162-1281 | what a write stores is what a read at the same place returns; every other byte is the old one or a zero of the gap |
| FsContent.ShrinkThenGrow | temu/fs_net.c:1185-1244 | bytes cut off by a shrink come back as zeros |
| FsLoads.TrimMakesRoom | temu/fs_net.c:670-697 | after trimming, the added size fits or every cached file is open |
| FsLoads.TrimIsLru | temu/fs_net.c:670-697 | if a file was evicted, so was every closed file used less recently |
| FsLoads.TrimShrinks | temu/fs_net.c:670-697 | trimming caches nothing new |
| FsRuns.TruncateSound | temu/fs_net.c:1185-1244 | truncate of any regular file, loaded or not, keeps names, space, cache and buffers sound |
| FsRuns.WriteSound | temu/fs_net.c:1246-1281 | so does a write |
| FsRuns.OpenWgetSound | temu/fs_net.c:837-869 | starting a load keeps everything sound, touches no open file's content and leaves the file loading, or fails with an I/O error |
| FsRuns.PreloadSound | temu/fs_net.c:872-883 | so does preloading any list of files |
| FsRuns.OpenSound | temu/fs_net.c:1008-1080 | open in every state (local, unloaded, loading, loaded; with and without truncation) keeps everything sound: an opened regular file is local or loaded |
| FsRuns.DownloadEndsSound | temu/fs_net.c:709-834 | the end of a download, with data, the wrong size or an error, keeps everything sound |
| FsRuns.SetUrlExact | temu/fs_net.c:1674-1701 | attaching a URL keeps everything sound if and only if the inode is refused, the size is 0, or no file has it open |
| FsFrames.StepQuiet | temu/fs_net.c:586-666 | no operation on names touches the content, size or load state of a surviving file, and new files are empty |
| FsSystem.DeleteSoundExact | temu/fs_net.c:579-584 | giving up a file keeps everything sound if and only if it does not wait for a download whose inode stays, and does not free a directory that has entries |
| FsSystem.ServeExact | temu/fs_net.c:586-1475 | every request (names, open, truncate, write, end of a download, URL) keeps names, space, cache, buffers, opened files and waiting opens sound and runs to its end, if and only if a test on the state before says so |
| FsSystem.HistoryIsSound | temu/fs_net.c:586-1475 | every history of requests that pass the test of ServeExact is sound throughout, from the empty file system |
| FsSystem.ServeEffect | temu/fs_net.c:1008-1281 | the content of an opened or cached file that stays so changes only by a truncate, write or truncating open of that file, and then as the sequence model says |
| FsSystem.HistoryContent | temu/fs_net.c:1162-1281 | along every history during which a file stays open or its content stays in the cache, the content is the replay of the requests on it on the sequence model |
| FsDevice.FSDeviceMem.constructor | temu/fs_net.c:1524-1578 | the fresh file system is the empty one: a root with "." and ".." |
| FsDevice.FSDeviceMem.InodeSearch | temu/fs_net.c:470-484 | the scan finds the first entry of that name, or none, or nothing for a non-directory |
| FsDevice.FSDeviceMem.FlushDir | temu/fs_net.c:568-577 | the loop removes every entry of the directory, first to last, each meeting the assertions of inode_free |
| FsDevice.FSDeviceMem.FsWalk | temu/fs_net.c:631-648 | the loop follows names until one is missing and returns a file on the last inode with the number followed |
| FsDevice.FSDeviceMem.FsTrimCache | temu/fs_net.c:670-697 | the backward walk over the cache list evicts closed files until the size fits |
| FsDevice.FSDeviceMem.FsPreloadFiles | temu/fs_net.c:872-1003 | the loop starts a load for each listed file still unloaded |
| FsDevice.FSDeviceMem.FsOpen | temu/fs_net.c:1008-1080 | open with its flags, errors, truncation, waiting and cache order |
| FsDevice.FSDeviceMem.FsCreate | temu/fs_net.c:1082-1105 | create with its errors; the file moves to the new inode |
| FsDevice.FSDeviceMem.FsRead | temu/fs_net.c:1162-1183 | read with its errors |
| FsDevice.FSDeviceMem.FsTruncate | temu/fs_net.c:1185-1244 | truncate in every state of the file, with the 5/4 growth, 4/5 shrink and space check |
| FsDevice.FSDeviceMem.FsWrite | temu/fs_net.c:1246-1281 | write with its errors, extension and copy |
| FsDevice.FSDeviceMem.FsRenameat | temu/fs_net.c:1433-1455 | rename with its errors, to a fresh name or over an existing file |
| FsDevice.FSDeviceMem.FsUnlinkat | temu/fs_net.c:1457-1475 | unlink with its errors; a directory must be empty and is flushed |
| Dirty.StoreKeeps | temu/riscv_cpu.c:466-478 | a store through the write TLB or past it keeps the invariant: a write entry into a tracked page implies the page's current bit, and a disabled range has no entry |
| Dirty.GetDirtyKeeps | temu/iomem.c:130-156 | swapping the bitmaps keeps it |
| Dirty.ResetDirtyKeeps | temu/iomem.c:159-177 | resetting one page keeps it |
| Dirty.SetAddrKeeps | temu/iomem.c:208-232 | enabling, disabling or moving a range keeps it |
| Dirty.GetRamPtrKeeps | temu/iomem.c:245-256 | handing out a pointer keeps it |
| Dirty.FastStoreIsDirty | temu/riscv_cpu_priv.h:268-281 | a store that hits the write TLB goes to a page whose current bit is already set |
| Dirty.ApplyBit | temu/iomem.c:130-255 | after any event a page's bit is set exactly when the event did not clear it and it was set or the event wrote the page |
| Dirty.DirtyExact | temu/iomem.c:130-255 | over every run a page's current bit is set exactly when the page was written since its last clear, or was set at the start and never cleared |
| Dirty.ReportIsExact | temu/iomem.c:130-156 | the second of two consecutive reports lists exactly the pages written between them and not individually reset since |
| DirtyRuns.StoreOneMoves | temu/riscv_cpu.c:455-478 | an aligned store of the CPU keeps write TLB and bitmaps coupled, and each byte of tracked RAM it changes is in a dirty page or had only accessed and dirty bits set |
| DirtyRuns.AfterTracks | temu/riscv_cpu.c:297-626 | so does every operation of the CPU, every report, reset and device write |
| DirtyRuns.ReportShowsChange | temu/iomem.c:130-156 | between two reports, whatever CPU and devices do and with no reset of its page alone, a byte that changed is in a page of the second report, or it is the first of its word and only bits 6 and 7 (A and D) were set |
| DirtyRuns.CpuDirties | temu/riscv_cpu.c:439-521 | after any operation of the CPU a page is dirty if and only if it was, or a store went into it: the walks, those of stores included, mark nothing |
| DirtyRuns.ReportListsStores | temu/iomem.c:130-156 | over every run of CPU operations, device writes, reports and resets, the second of two reports lists a page that was not reset alone if and only if the CPU or a device stored to it in between |
| DirtyRuns.LoadUnreported | temu/riscv_cpu.c:277-283 | a load whose accessed-bit update changes a byte of a clean tracked page goes unreported |
| DirtyRuns.LoadUnreportedWitness | temu/riscv_cpu.c:277-283 | there is such a load |
| MemoryRange.TrackedRange.GetDirtyBits | temu/iomem.c:130-156 | the bitmap in use is returned as it was, the other is cleared and used, and the write TLB flushed when a page was dirty and the range enabled |
| MemoryRange.TrackedRange.ResetDirtyBit | temu/iomem.c:159-177 | only a set bit is cleared, with the write entries of that page |
| MemoryRange.TrackedRange.SetAddr | temu/iomem.c:208-232 | address, size and write entries follow the specification of a move |
| SecondWalker.WalkIsLeafThenCheck | temu/riscv_cpu.c:225-283 | the walk of temu/riscv_cpu.c is the search of the leaf followed by the permission check |
| SecondWalker.PpnIsPage | csr_file.h:1301-1310 | the page number of an entry is right whenever it is below 2^32 |
| SecondWalker.PaIsTruncated | csr_file.h:1272-1274 | the physical address is the true one modulo 2^32, for 4 KiB, 2 MiB and 1 GiB pages |
| SecondWalker.DescendAgrees | csr_file.h:1345-1417 | the three levels of translate find the leaf of the other walk, with its result cut to 32 bits |
| SecondWalker.WalkersAgree | csr_file.h:1317-1437 | on the same tables both walks have the same structural faults; translate answers exactly on A (and D and W for a store), the other exactly on its permissions; where both succeed the addresses agree modulo 2^32, are equal exactly below 2^32, and nothing is written back |
| SecondWalker.CpuAgrees | csr_file.h:1317-1437 | the same between translate and get_phys_addr with the control state of both |
| SecondWalker.CanonicalExact | temu/riscv_cpu.c:234-237 | without assuming a canonical address, translate and get_phys_addr agree if and only if the address is canonical, or there is no leaf, or get_phys_addr refuses the leaf |
| SecondWalker.NonCanonicalAnswered | csr_file.h:1257-1262 | at address 2^39 translate answers with a leaf that maps 0, and get_phys_addr faults |
| SecondWalker.HighBitsIgnored | csr_file.h:1257-1262 | translate gives every address the result of its low 39 bits |
| FetchLoop.PrepareFetches | temu/riscv_cpu_template.h:237-289 | before each instruction the pc is the virtual pc, and the instruction handed on consists of the halfwords that the code TLB maps at pc and pc + 2 in the memory of the machine that fetched them, straddling pages included; an exit costs at most one cycle |
| FetchLoop.TurnKeeps | temu/riscv_cpu_template.h:188-289 | every turn keeps the block in the page of the pc, the pc and the vectors even, and code_ptr what the TLB maps at the pc, for every guest that goes from even to even |
| FetchLoop.TurnProgress | temu/riscv_cpu_template.h:200-289 | every turn decreases (positive cycles left, halfwords to the page end) or leaves the loop, and cycles never fall below minus 2047 |
| FetchLoop.InterpX | temu/riscv_cpu_template.h:171-289 | for such a guest the loop ends, consumes at least one cycle, overshoots by at most 2047, and leaves pc and vectors even |
| FetchLoop.RunFor | temu/riscv_cpu.c:1229-1258 | the outer loop ends, only in power-down or with the budget spent, and overshoots by at most 2047 |
| Guests.StepKeepsEven | temu/riscv_cpu.c:906-1157 | every operation of the CPU keeps mtvec, stvec, mepc and sepc even and in range; trap, mret and sret set an even pc |
| Guests.OpsKeepEven | temu/riscv_cpu_template.h:1717-1734 | every guest whose instructions are operations of the CPU and end as the instructions of the source do goes from even to even, so the loop ends for all of them |
| FetchWalk.FetchIsWalk | temu/riscv_cpu_template.h:237-289 | in a coherent machine the 32 bits a turn executes are those the page walk reaches at the pc, and the core is left as the walk leaves it; a turn that takes no interrupt fails to fetch exactly when the walk does, with the same exception pending |
| FetchWalk.TurnStaysCurrent | temu/riscv_cpu_template.h:200-289 | a turn whose instruction, interrupt or trap keeps the TLBs coherent at the machine reached, and the block's pages if execution stays in the block, keeps machine and block coherent |
| FetchWalk.InterpStaysCoherent | temu/riscv_cpu_template.h:200-289 | so does a run of such turns, and every one of its turns fetches what the walk reaches |
| CodeBlock.StepKeepsBlock | temu/riscv_cpu_template.h:1234-1275 | an operation that writes neither satp nor a page-table word of the block's pages, and does not take SUM from S, leaves the translations of the block's code TLB right |
| WalkInterp.ExecRefines | temu/riscv_cpu_template.h:290-1716 | an instruction outside the hazards has the same core, registers and end with and without TLBs |
| WalkInterp.TurnIsWalk | temu/riscv_cpu_template.h:200-289 | one turn of the loop outside the hazards does what one turn of the walking interpreter does: interrupt, fetch fault, trap or instruction |
| WalkInterp.TurnIsCareful | temu/riscv_cpu_template.h:200-289 | and it meets the condition of FetchWalk.TurnStaysCurrent |
| WalkInterp.InterpIsWalk | temu/riscv_cpu_template.h:171-1734 | over every run outside the hazards the loop with TLBs and code pointers ends with the core, registers and cycles of the interpreter that walks the tables for every fetch and access, and stays coherent |
| WalkInterp.StartsRun | temu/riscv_cpu_template.h:200-225 | every coherent machine with even pc and vectors, the one after reset among them, can start such a run |
| WalkInterp.SafeWithoutOps | temu/riscv_cpu_template.h:200-289 | a guest that only computes on registers and jumps meets no hazard in any run while MPRV is clear |
| Cbc.DecryptsEncrypted | temu/aes.c:1272-1319 | decryption undoes encryption for every length, partial last block included, for any block function and its inverse |
| Cbc.DecryptedAppend | temu/aes.c:1302-1319 | decrypting in two calls with the carried vector gives the same as in one |
| Cbc.CbcDecrypt | temu/aes.c:1302-1319 | the in-place loop writes the CBC decryption of the old buffer, leaves the rest alone and carries the last ciphertext block as vector |
| DecryptFile.DecryptFileState.TakeHeader | temu/fs_wget.c:356-378 | header bytes are gathered; refused exactly on a wrong magic |
| DecryptFile.DecryptFileState.TakeBody | temu/fs_wget.c:379-394 | payload bytes are gathered, and full buffers handed out except one withheld block |
| DecryptFile.DecryptFileState.Decrypt | temu/fs_wget.c:356-398 | the state after a chunk depends only on all bytes consumed; it fails exactly on a wrong magic |
| DecryptFile.DecryptFileState.Flush | temu/fs_wget.c:402-424 | the total output is the plaintext of all bytes consumed, and flush fails exactly when there is none |
| DecryptFile.DecryptChunks | temu/fs_wget.c:356-424 | for every split into chunks the result is the one of the whole file |
| DecryptFile.PlainOfEncrypted | temu/fs_wget.c:330-424 | a padded, encrypted file with the right header decrypts to its plaintext |
| Fdt.InternExact | temu/riscv_machine.c:417-439 | the string table stays a duplicate-free list of names, and the offset returned is that of the name |
| Fdt.OffsetsStay | temu/riscv_machine.c:417-439 | an offset returned once keeps denoting its name as the table grows |
| Fdt.Layout | temu/riscv_machine.c:529-579 | header, struct, reserve map and strings are disjoint, in order, aligned and inside totalsize |
| Fdt.Blocks | temu/riscv_machine.c:529-579 | each block of the output holds its content |
| Fdt.DecodeOutput | temu/riscv_machine.c:369-579 | a reader of the format recovers exactly the begin, property and end calls from the output |
| FdtWriter.FDTState.PutData | temu/riscv_machine.c:386-395 | the data are appended, zero-padded to a word |
| FdtWriter.FDTState.GetStringOffset | temu/riscv_machine.c:417-439 | the scan finds the string or appends it |
| FdtWriter.FDTState.Output | temu/riscv_machine.c:529-579 | the destination holds the specified file and nothing beyond its size is touched |
| FdtWriter.WriteTree | temu/riscv_machine.c:369-579 | writing any balanced calls with clean names through the object yields a file that decodes to them |
| Multiply.MulhuExact | temu/riscv_cpu_template.h:123-147 | for every half width the scheme gives the high word of the product, and no intermediate sum leaves the word |
| Multiply.MulhExact | temu/riscv_cpu_template.h:150-159 | the signed result is right if and only if both operands are negative or neither is |
| Multiply.MulhsuExact | temu/riscv_cpu_template.h:161-168 | the mixed result is right if and only if the signed operand is not negative or both operands have the same bits |
| Ide.SetThenGet | temu/ide.c:337-368 | reading an address back gives the address set, in LBA mode and in CHS mode for any geometry up to 16 heads and 255 sectors, and keeps the mode |
| Ide.ReadDataExact | temu/ide.c:734-753 | after a word is read the index is within the transfer if and only if the transfer goes on or its next block can be read |
| Ide.WriteDataExact | temu/ide.c:714-732 | the same after a word is written |
| Ide.ExecValid | temu/ide.c:495-564 | every command leaves the index within the buffer |
| Ide.ReadsInOrder | temu/ide.c:370-426 | from any point of a read the port delivers exactly the remaining sectors, in order, and then the transfer has stopped with count 0 |
| Ide.WritesInOrder | temu/ide.c:428-487 | from any point of a write the words given to the port end up in exactly the remaining sectors, in order, and then the transfer has stopped |
| Ide.ReadCommand | temu/ide.c:495-564 | a read command with count N (0 meaning 256) delivers sectors L to L+N-1 for any multiple setting, then stops |
| Ide.WriteCommand | temu/ide.c:495-564 | a write command stores into exactly these sectors, then stops |
| IdeDrive.IDEState.SectorRead | temu/ide.c:370-418 | a block is read into the buffer and the transfer started, or the command aborted |
| IdeDrive.IDEState.SectorWriteCb1 | temu/ide.c:428-452 | the buffer goes to the disk and the write goes on, or the command is aborted |
| IdeDrive.IDEState.SectorWriteCb2 | temu/ide.c:454-474 | address and count move on by the block, and the next block is started unless it was the last |
| IdeDrive.IDEState.DataReadw | temu/ide.c:734-753 | one word, and the end of the transfer when it is reached |
| IdeDrive.IDEState.DataWritew | temu/ide.c:714-732 | one word, and the end of the transfer when it is reached |
| Quoting.LexEscaped | temu/fs_utils.c:85-172 | reading one escaped byte gives the byte and stops after it |
| Quoting.RoundTripExact | temu/fs_utils.c:85-188 | for every string shorter than the buffer, parsing its quoted form gives it back and stops exactly after it, if and only if it is not a graphic string starting with a double quote |
| Quoting.NeedsQuotes | temu/fs_utils.c:93-102 | the scan asks for quotes exactly when the string is empty or not all graphic |
| Quoting.QuotedStr | temu/fs_utils.c:85-120 | the loop writes the quoted form |
| Quoting.ParseFname | temu/fs_utils.c:122-188 | the loop parses as specified: same failures, same bytes with a NUL after them, same rest |
| SecondWalker.WalkExact | temu/riscv_cpu.c:253-273 | a walk succeeds exactly when the tables lead to a leaf and its bits allow the access: W for a store, X for a fetch, R (or X with MXR) for a load, U for user mode, and for S mode no U unless SUM is set |
| SecondWalker.StoresAgree | csr_file.h:1345-1437 | the two walkers never disagree on W: at a leaf that passes the user test and has A and D, `translate` takes a store exactly when `get_phys_addr` does |
| Unaligned.LoadIsBytes | temu/riscv_cpu.c:297-346 | a load of any size and alignment is its byte loads put together in address order, with the same state after it, and delivers a value exactly when each of them reaches RAM |
| Unaligned.LoadReturnsStore | temu/riscv_cpu.c:297-521 | a load of any size and alignment after a store to the same address returns the stored bits, when the bytes can also be read and lie in no page table they are reached through; the two pages may be one page of RAM |
| Unaligned.StoreStops | temu/riscv_cpu.c:446-453 | an unaligned store whose byte k is the first to fault leaves the state of the k byte stores before it, with a store page fault pending at the address of byte k |
| TrapLaws.TrapContext | temu/riscv_cpu.c:1083-1120 | a trap starts at the vector of its target mode, with that mode's cause, epc and tval filled in, and leaves the vector, cause, epc and tval of the other mode |
| TrapLaws.CauseTells | temu/riscv_cpu.c:1093-1095 | bit XLEN - 1 of the cause is set exactly for interrupts, and the bits below it are the number |
| TrapLaws.HandlerUninterrupted | temu/riscv_cpu.c:1083-1197 | right after a trap no interrupt for the handler's mode or a lower one is taken |
| TrapLaws.TrapGoesToVector | temu/riscv_cpu.c:906-1120 | after a write of stvec or mtvec and any operations that do not write it, a trap into that mode continues at the written value rounded down to a multiple of four |
| TrapLaws.DelegationFollows | temu/riscv_cpu.c:978-1120 | after a write of medeleg or mideleg and any operations that do not write it, a trap ends in S exactly when it comes from S or U and its bit of the written value is set, and in M otherwise |
| TrapLaws.RunWidth | temu/riscv_cpu.c:961-1040 | over every run the current XLEN is the one named by the field of the current mode: MXL, SXL or UXL |
| TrapLaws.RunKeepsFs | temu/riscv_cpu.c:674-699 | over every run the FS field stays out of the stored mstatus, so that `get_mstatus` can or it in |
| TrapLaws.FaultReachesHandler | temu/riscv_cpu.c:1042-1120 | a page fault reaches the handler with exception 12, 13 or 15 for a fetch, load or store, the address as tval and the pc as epc |
| TrapLaws.IllegalReachesHandler | temu/riscv_cpu_template.h:1717-1734 | an illegal instruction reaches the handler with exception 2, its own bits as tval and its pc as epc, the integer registers unchanged |
| TrapLaws.InterruptReachesHandler | temu/riscv_cpu.c:1186-1197 | an interrupt reaches the handler with its number below the interrupt flag, tval 0, and the pc of the next instruction as epc |
| TrapLaws.LoadFaultAddress | temu/riscv_cpu.c:312-341 | an unaligned load of 4 or 8 bytes that faults in its first part reports the address rounded down to its size, not its own |
| CsrLaws.WritesOwn | temu/riscv_cpu.c:906-1019 | a CSR write changes the register of its number and nothing else in the CPU |
| CsrLaws.ReadAfterWrite | temu/riscv_cpu.c:703-1019 | `csr_read` after `csr_write` of a register of flags returns the written value in the writable bits, 0 in the bits that do not exist, and the old value elsewhere; the writable bits are listed per register, with those that depend on mideleg, UXL and the mode of satp |
| CsrLaws.NumberAfterWrite | temu/riscv_cpu.c:912-1012 | a vector, scratch, epc, cause or tval register takes the written number, a vector rounded down to 4 and an epc to 2 |
| CsrLaws.MisaAfterWrite | temu/riscv_cpu.c:961-977 | misa takes a width of 32 or 64 bits from the two bits below the current XLEN and keeps its width for the other two encodings |
| CsrLaws.OthersUnchanged | temu/riscv_cpu.c:703-1019 | after a CSR write every register number reads as before, except those through which the written register shows |
| CsrLaws.SupervisorView | temu/riscv_cpu.c:767-911 | writes of sie and sip show in mie and mip in the delegated bits only |
| CsrLaws.SstatusInMstatus | temu/riscv_cpu.c:706-908 | a write of sstatus shows in mstatus, in the writable bits of sstatus only |
| Privilege.UserConfined | temu/riscv_cpu.c:297-1157 | a run in U mode without a trap, whatever it tries, changes memory and the pending exception only |
| Privilege.SupervisorConfined | temu/riscv_cpu.c:906-1157 | a run from S or U whose traps all go to S leaves every machine register, the machine bits of mstatus and the interrupt bits that are not delegated unchanged, and never reaches M |
| CpuLaws.DirectExact | temu/riscv_cpu.c:197-240 | exactly M mode (after MPRV) and Bare use the address itself, cut to the current XLEN in M |
| CpuLaws.AccessExact | temu/riscv_cpu.c:197-293 | everywhere else an access succeeds exactly when satp names Sv39 or Sv48, the address is the sign extension of its 39 or 48 low bits, the tables lead to a leaf and its bits, SUM, MXR and the effective mode allow it |
| CpuLaws.IndicesAreDigits | temu/riscv_cpu.c:246-249 | the table indices of the four levels are the base-512 digits of the page number |
| CpuLaws.SuperpageExact | temu/riscv_cpu.c:284-286 | a leaf at level l maps 512^l pages: the page's high part is the entry's and its low part the address's |
| CpuLaws.PtePageExact | temu/riscv_cpu.c:256-256 | the page an entry names is its value without the low 10 bits, modulo 2^52 |
| CpuLaws.PlaceExact | temu/iomem.c:68-78 | a physical address belongs to the one range that holds it: RAM at the same distance from the host pointer as the address from the range's start, a device at that offset |
| CpuLaws.UnmappedExact | temu/iomem.c:68-78 | an address is unmapped exactly when no range holds it |
| CpuLaws.IntXExact | temu/riscv_cpu_template.h:171-199 | the pc of a 32-bit loop is the sign extension of the low 32 bits of the target, that of a 64-bit loop the target modulo 2^64 |
| CpuLaws.NextPc | temu/riscv_cpu_template.h:188-289 | after an instruction the pc is 2 or 4 further, 4 exactly when its two low bits are set; or the branch target; or the register value with bit 0 cleared |
| FsTree.Lookup | temu/fs_net.c:470-484 | `inode_search` is a lookup in the map of names |
| FsTree.StepTree | temu/fs_net.c:586-1475 | each operation changes the map from directory and name to inode as its reference says (mkdir binds three names, create, symlink, mknod and link one, rename moves one, unlink removes one and those of an emptied directory, the others none), and no directory gets a name twice |
| FsTree.RunTree | temu/fs_net.c:586-1475 | over every run from the empty file system names are unique and the map is what the operations made it |
| FsTree.StepAnswer | temu/fs_net.c:586-1475 | the reply of every operation follows from the map: what exists, what is missing, what is or is not a directory, what is not empty |
| FsTree.MadeKind | temu/fs_net.c:1082-1419 | a new inode has the kind asked for |
| FsTree.WalkFollows | temu/fs_net.c:631-648 | a walk goes from inode to inode, each name leading from one to the next, and stops at the end of the names or where the next one stands for nothing |
| FsTree.WalkExact | temu/fs_net.c:631-648 | and it is the only such way: whoever follows the names as far as they go ends where `fs_walk` does, after as many names |
| FsTree.WalkOpens | temu/fs_net.c:631-648 | the new file of `fs_walk` is on the inode the way ends at, not opened, and the reply is the number of names |
| FsTree.MkdirIsFound | temu/fs_net.c:650-666 | after mkdir a walk of the name finds the new directory, in it "." finds itself, ".." the parent, and no other name exists |
| FsTree.CreateIsFound | temu/fs_net.c:1082-1105 | after create a walk of the name finds the new inode, and the file is open on it with the given flags |
| FsTree.RenameIsFound | temu/fs_net.c:1433-1455 | after rename the new name finds the inode of the old one, the old name finds nothing, and all other names stand for what they did |
| FsTree.LinkIsFound | temu/fs_net.c:1370-1380 | after link the new name and every old name of the file find its inode |
| FsTree.UnlinkIsGone | temu/fs_net.c:1457-1475 | after unlink the name finds nothing, and every other name stays except those inside a removed directory |
| FsTree.MkdirSizes | temu/fs_net.c:455-468 | the entries of a new directory take 34 and 35 bytes, and its name 33 and its length in the parent |
| FsSystem.DownloadContent | temu/fs_net.c:710-835 | a download that ends leaves in the file the first bytes received, as many as its size, whatever follows them |
| FsSystem.WaiterReads | temu/fs_net.c:724-835 | the file that waited for the download is opened, and its reads return the downloaded bytes |
| FsSystem.DownloadFails | temu/fs_net.c:747-835 | a failed or short download leaves the file unloaded with an empty buffer and changes no open file |
| FsSystem.DownloadHistory | temu/fs_net.c:710-1281 | from the end of a download on, over every history in which the file stays open or in the cache, its content is the downloaded bytes changed by the requests since |
| FsSystem.HistoryTree | temu/fs_net.c:586-1475 | over every history of all requests names stay unique and change by the name operations only, as their reference says |
| FsSystem.OpenEnds | temu/fs_net.c:1008-1080 | `fs_open` ends with the file open with its flags, or waiting for the download of its inode, or not open |
| FsSystem.FlagBits | temu/fs_net.c:1008-1080 | truncate is bit 9 and directory bit 16 of the open flags, and the access mode bits 0 and 1 |
| FsSystem.OpenRefuses | temu/fs_net.c:1008-1030 | `fs_open` answers ENOTDIR exactly when a directory is asked for and the inode is none, and EINVAL exactly when none is asked for and the inode is neither file nor directory |
| FsCache.CacheIsLru | temu/fs_net.c:670-1080 | over every history the cache list is in the order of last use, the latest first, where a use is the end of a download or an open of a cached file; what is evicted is at its other end |
| FsLoads.TrimStops | temu/fs_net.c:670-697 | nothing is evicted when the size fits, and otherwise no more than needed: what stays would not fit with the last file that went |
| FsSpace.BlocksCover | temu/fs_net.c:312-315 | `to_blocks` is the least number of 4096-byte blocks that hold the size |
| BlockNetProofs.EvictsTail | temu/block_net.c:144-168 | cached blocks are evicted from the end of the list, loaded ones only, and no more than make room for one |
| Fdt.HeaderExact | temu/riscv_machine.c:529-579 | the header has the magic, total size, block offsets and sizes, versions 17 and 16 and boot CPU that section 5.2 of the Devicetree Specification asks for |
| Fdt.TokensExact | temu/riscv_machine.c:397-579 | nodes, properties and ends start with the tokens 1, 3, 2 and 9 of section 5.4.1, and a call only appends |
| Ide.LbaIsBytes | temu/ide.c:337-350 | in LBA mode the address registers are the bytes of the sector number, lowest first, with four bits in select |
| Ide.ChsInOrder | temu/ide.c:337-350 | in CHS mode the sectors follow each other along the track, then the heads, then the cylinders, from cylinder 0, head 0, sector 1 |
| CpuLaws.FetchIsBytes | temu/riscv_cpu_template.h:237-289 | the instruction fetched at an even pc is its bytes in address order, two or (when the two low bits are set) four, each where a fetch of its own address finds it, across pages too |
| CpuLaws.FetchFails | temu/riscv_cpu_template.h:237-289 | a fetch that fails reports the address of the halfword it failed at |
| TrapLaws.TurnTakesInterrupt | temu/riscv_cpu_template.h:200-225 | when a block is entered with cycles left, an interrupt that is due is taken before any instruction, and its handler returns to the pc of the block |
| TrapLaws.TurnFetchFault | temu/riscv_cpu_template.h:200-289 | an instruction that cannot be fetched ends the run in the handler, with the fault of the fetch, its address and the pc of the instruction |

## Left out

- MmuProofs.TlbTransparent: starts from any coherent TLB and excludes runs with a hazard; for the store hazard only one direction is stated, because whether a stale entry shows depends on later accesses.
- FsSystem.HistoryIsSound: covers the histories that pass the test of `FsSystem.ServeExact`; after a request that fails it the source has aborted or written outside its objects.
- FsRuns.DownloadEndsSound: a download is one event with its data; progressive data, decryption on the way and archives are not modelled.
- FsDevice.FSDeviceMem.FsOpenCb: the same.
- FsDevice.FSDeviceMem.FsPreloadFiles: preload archives are not modelled.
- FsDevice.FSDeviceMem.FsNetSetUrl: base URLs are not modelled, so neither is the error for an unknown one.
- FsDevice.FSDeviceMem.FsUnlinkat: requires that emptying the directory meets the assertion of inode_free; when it does not is `FsOps.UnlinkExact`.
- FsDevice.FSDeviceMem.FsMknod: takes one of the supported file types; the error for other type numbers is not modelled.
- FsDevice.FSDeviceMem.FsWrite: a write outside the buffer is reported as a fault, not carried out.
- BlockDevice.BlockDeviceHttp.constructor: takes blocks of whole clusters; what happens to smaller ones is `BlockNet.ClusterFitsExact`.
- MmuProofs.WriteCsrKeepsInv: the floating-point CSRs are not modelled.
- RiscvCpu.RiscvCpuState.TargetRead: an access to a device is one output of the run; the device's size flags and the split of 64-bit accesses are not modelled.
- RiscvCpu.RiscvCpuState.TargetWrite: the same, and the dirty bit of the slow path is in `DirtyRuns`.
- WalkInterp.InterpIsWalk: excludes runs with a hazard of `MmuProofs` or `CodeBlock`; for stores only one direction is stated, as above.
- FsDevice.FSDeviceMem: the entry lists of all directories are one field, and inodes and files are map and list entries named by number, so pointer aliasing between list nodes is not modelled.
- FsData.Rebuffered: `realloc` succeeds up to a given room and fills new memory with arbitrary bytes; other allocation failures are not modelled.
- FsNet.ToBlocks: block and cache totals are unbounded integers.
- RiscvCpu.RiscvCpuState.WriteBytes: the byte loop of an unaligned store is a recursion.
- SecondWalker.Descend: the three unrolled levels of `translate` are one recursion; an access outside the memory array is one outcome and a leaf access outside RAM is not followed.
- Cbc.Encrypted: the encryption branch of `AES_cbc_encrypt` is a function only; AES rounds and key schedule are an abstract pair of block functions.
- DecryptFile.DecryptFileState.Decrypt: callbacks do not fail, and a chunk is shorter than 2^31 bytes.
- FdtWriter.FDTState: the growing capacity of the buffers is not modelled; sizes stay below 2^32.
- IdeDrive.IDEState: the block device completes at once; port decoding, reset, interrupts and the identify block's contents are left out.
- MAX_XLEN = 64 only; Sv32 and the 32-bit variants of the CSR code.
- Physical ranges are assumed page-aligned and disjoint; a RAM range moved while the CPU runs flushes only write entries, so the MMU model keeps the map fixed while `Dirty` covers moves and `DirtyRuns` does not.
- Decoding, arithmetic, floating point and the counter registers: in `Guests` the operations, the new registers and the end of an instruction are any function of core, registers, pc and instruction, so a value read from a device does not reach the registers.
- libcurl and Emscripten: a download is one event with its data or an error.
- `.fscmd` commands, preload archives, the filelist loader, `fs_mem_end`, base-URL reference counts, dumping and attributes of files other than size.
- `csr_file.h` beyond `translate`: the CSR registers, traps and interrupts of the main emulator, and the `main` loops of `emu.cpp`.
- SHA-256, HMAC, PBKDF2, VIRTIO, PCI, PS/2, frame buffer, SDL, JavaScript glue and the host file system.
- Memory exhaustion, `abort`, `exit` and debug output.
