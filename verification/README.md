# A verified model of the kernel's core

This project models the parts of a small RISC-V Sv39 kernel whose correctness depends on many steps
fitting together, and proves properties of them for all inputs, all runs and all interleavings.

**Page tables.** `Sv39` is the address translation of section 4.3.2, with the Sv39 instantiation of
section 4.4, of the RISC-V Privileged Architecture v1.12, written down on its own; `Sv39Laws` says in plain
numbers which addresses it accepts, where the fields of an entry lie, and what pages of 4 KiB, 2 MiB and 1 GiB
translate to. `Pgtable` holds the shift-and-mask
helpers, proved against plain quotients and remainders (`Bits64`). `PageTree` says what it means for
physical memory to hold a well-formed tree of tables and what storing one entry does to every address.
`Alloc` is the page allocator. `Mm` is `vm_map_page()`: a method equal to a function on any memory whatever,
and the theorem that on a well-formed tree this function refines the map from pages to translations; where it
does not, on gigapages, the exact condition. `BootMap` runs `vm_init()` on any section layout that the linker can
produce and proves the exact address space it builds, for every one of the 2^64 addresses. `PtbDump` is
`dump_ptbs()`, and `BootDump` what it counts on the tables of boot.

**Devicetree.** `DeviceTree` encodes a tree into the flattened format of the Devicetree Specification
(sections 5.4.1 and 5.4.2), and lists its nodes in preorder, which is the order of their positions. `Dtb` is the
pair of scanners, proved to compute the simple search on the tree from the bytes of the blob alone: header, structure
block and strings block.

**Serial input and shell.** `Serial` is the driver, the spinlock and the interrupt flags, each call by itself.
`SerialSystem` is a transition system of one hart in which an interrupt may come before any step of the main
thread while SIE is set; its theorems hold in every reachable state. `Shell` is the line accumulator and the
command dispatch of `kmain()`, with what lines and commands are in terms of single bytes; the system connects the two ends, from arriving bytes to dispatched lines.

**Text.** `CString` is `src/string.c`, `Format` says what a format string prints, and `Printf` is the state
machine of `vsnprintf()`, proved to print exactly that. `Numerals` is an independent reader of numbers; with it
`FormatLaws` says for each directive, flag, width and length what its text looks like and which number it denotes.

The form follows the source: globals and structs whose functions update them are classes or arrays with
methods, pure helpers are functions, loops are loops with invariants. A method that changes state is specified by a
function of the old state, and the lemmas are about that function. C structs passed by pointer to be filled
in (`struct fmt_specifier`) are values that go in and come out.

## How C is read

- `u64` is the integers below 2^64, with wrap-around written out wherever the code can reach it.
- Physical memory is a map from page address to 512 words; a page that is not in the map does not exist.
  The kernel's own globals (the allocator's list, the root pointer) are not part of it.
- `BUG()` stops the hart under `BUG_PANIC`, which is the default; the outcomes `BugHit`, `Refused` and `NoMemory`
  mark the places where it is reached. `AccessFault` and `Faulted` mark an access to a page that does not exist.
- A shift of a 64-bit register by 64 shifts by the low six bits of the amount, as the RISC-V instructions do;
  the code shifts by 64 in `number_truncate()` for a directive without a length. Negating the smallest `i64` wraps.
- Bytes of a string are unsigned, and a pointer is an offset into the bytes it points into.

## Where code and documentation differ

- The Devicetree Specification lets NOP tokens stand before the root node. The search reads one token there
  and gives up: it is right if and only if there is no such NOP or no node has the name (`Dtb.DtbMatchNodeName`).
  Every tree has a blob with leading NOPs (`Dtb.LeadingNops`), and one NOP hides even the root
  (`Dtb.LeadingNopHidesRoot`).
- The specification's FDT_END is 9. The code has 5, so it reads the token behind the tree as unknown; no search reads
  that far.
- A value length above 2^32 - 4 is rounded up in 32 bits by the node search and in 64 bits by the property scan, so the
  two disagree there (`Dtb.SkipsAgree`).
- `hart_irq_save()` is documented to return the SIE bit. It returns all of sstatus, so `hart_irq_restore()` writes SPIE
  back too. The value written differs from the current one if and only if a trap came between the read and the clear of
  a call that had read SPIE as 0 (`SerialSystem.SpieStale`, reached by `SerialSystem.SpieStaleRun`). SIE is always right
  (`SerialSystem.SieRestored`).
- `vm_map_page()` does not look whether the root entry of its address is a gigapage: it takes the mapped data for a
  page table. Such a call changes no translation of the gigapage, whatever it returns (`Mm.GigapageStands`). So a return
  of 0 means that the page is mapped as asked if and only if there is no gigapage, or it mapped the page so already
  (`Mm.MapsUnlessGigapage`). `Mm.GigapageSwallowsMap` is a call that returns 0, maps nothing and overwrites data.
- `vm_init_kernel()` takes its root table with `alloc_get_page()`, which does not clear it; the boot theorems require
  that all its entries happen to be invalid (`BootMap.BootReady`).
- `dump_ptbs()` follows a valid entry with neither R, W nor X and PPN 0 at the last level, such as the
  null-pointer guard at address 0. It counts one visit for it and reads nothing there (`PtbDump.DumpPtbs`).
- In base 16 `strtou64()` takes the six bytes behind '9', from ':' to '?', as the digits 10 to 15, and a letter for no
  digit (`Numerals.HexNumber`). So it reads back what `"%x"` prints only as long as no letter occurs.
- `strncmp()` with length 0 compares the first characters.
- `va_to_pa()` accepts the address one past the direct map, and no other outside it (`BootMap.VaToPaOutside`).

## Model

| member | source | states |
|---|---|---|
| Bits64.BitmaskIsField | include/kernel/bits.h:9 | the macro yields high - low + 1 ones, low places up, for all bounds |
| Pgtable.MaskedField | include/arch/pgtable.h:57-62 | masking with BITMASK64(high, low) and shifting down reads exactly the bits from low to high, as a quotient and a remainder |
| Sv39Laws.CanonicalMeans | src/mm.c:165-168 | an address is canonical exactly if bits 63 to 38 are all clear or all set: its quotient by 2^38 is 0 or 2^26 - 1 |
| Sv39Laws.LeafFields | include/arch/pgtable.h:21-23 | V, R, W, X and U are bits 0 to 4 of an entry, A and D are clear in the leaves built from them, and the page number starts at bit 10 |
| Sv39Laws.SmallPage | include/arch/pgtable.h:13-23 | root, middle and last index are va / 2^30, va / 2^21 and va / 2^12 modulo 512; two pointers and a leaf translate to the page with the offset and the leaf's permissions |
| Sv39Laws.MegaPage | include/arch/pgtable.h:13-23 | a leaf behind one pointer translates 2 MiB, or faults if its page number is not aligned to that |
| Sv39Laws.GigaPage | include/arch/pgtable.h:13-23 | a leaf in the root translates 1 GiB, or faults if its page number is not aligned to that |
| Sv39Laws.FaultStep | include/arch/pgtable.h:21-23 | an entry without V, with W but not R, with a bit above 53, or at the last level without R and X translates nothing |
| Sv39.VpnsDeterminePage | include/arch/pgtable.h:57-84 | on canonical addresses, the three table indices agree exactly if the pages agree |
| Pgtable.IsAligned | include/arch/pgtable.h:37 | the mask test accepts exactly the multiples of 4096 |
| Pgtable.VaGetIndex | include/arch/pgtable.h:71-84 | the index is the VPN field of the Sv39 specification, and is below 512 |
| Pgtable.PhysToPpn | include/arch/pgtable.h:124-127 | the page number is the quotient by 4096 |
| Pgtable.PpnToPhys | include/arch/pgtable.h:132-135 | the address is 4096 times the page number, below the point where the shift loses bits |
| Pgtable.PteGetPpn | include/arch/pgtable.h:140-143 | the PPN read is the PPN field of the Sv39 specification |
| Pgtable.PteFromPpn | include/arch/pgtable.h:151-154 | the PPN lands at bit 10, below the point where the shift loses bits |
| Pgtable.PteNextPtb | include/arch/pgtable.h:163-166 | the next table's address is the one the Sv39 walk takes next |
| Pgtable.PteValid | include/arch/pgtable.h:188-191 | true exactly if bit V of the specification is set |
| Pgtable.PteLeaf | include/arch/pgtable.h:208-211 | true exactly if R, W or X is set, which differs from the specification's leaf on W alone |
| Pgtable.LeafPteFields | src/mm.c:189-191 | the stored entry has V, exactly the given permissions, and all of the address; from 2^56 on a reserved bit |
| Pgtable.TablePteFields | src/mm.c:205-207 | a pointer entry is valid, no leaf, sets nothing reserved, and points to the given page |
| Pgtable.PteRoundTrip | include/arch/pgtable.h:140-166 | decoding an entry built from a page address gives the address back if and only if it is below 2^56 |
| Pgtable.LeafPteTranslates | src/mm.c:189-196 | the Sv39 walk step on the stored entry gives the page with the asked permissions, or a fault |
| PageTree.PathDetermines | src/mm.c:174-218 | no aliasing: two addresses reach the same table only if their indices above it agree |
| PageTree.LookupFrame | src/mm.c:174-218 | an address whose descent does not read the changed entry sees no change |
| PageTree.AttachKeepsWf | src/mm.c:203-213 | attaching a cleared free page below an invalid entry keeps a strict tree of tables, each with one parent |
| PageTree.AttachDeepens | src/mm.c:203-213 | a new table maps nothing: it only moves where the descent ends, for exactly the addresses that share it |
| PageTree.LeafStore | src/mm.c:189-196 | storing a leaf at level 0 maps exactly the addresses with the same three indices |
| PageTree.StoreKeepsWf | src/mm.c:196 | storing an entry that is a leaf or stands at level 0 keeps the tree well-formed |
| PageTree.GigapageStore | src/mm.c:60-64 | storing a gigapage over an invalid root entry maps exactly the addresses with that root index |
| PageTree.TranslateIsMeaning | src/mm.c:174-218 | on a well-formed tree, what the code's own descent finds is what the Sv39 walk translates to, for every address |
| Alloc.Allocator.Init | src/alloc.c:20-35 | the list becomes 32768 consecutive pages and next 0; a misaligned start changes nothing |
| Alloc.Allocator.GetPage | src/alloc.c:37-57 | hands out the next page and clears its entry, exactly if initialised and not down to the last page; else changes nothing |
| Alloc.Allocator.FreePage | src/alloc.c:66-88 | pushes the page back, exactly if initialised, aligned and something is allocated; else changes nothing |
| Alloc.PoolPagesDistinct | src/alloc.c:29-31 | no page occurs twice in a new list, even where addresses wrap |
| Alloc.InitConserves | src/alloc.c:20-35 | a new allocator has its pool free, without duplicates, aligned, and nothing held |
| Alloc.GetConserves | src/alloc.c:37-57 | a page handed out is aligned, from the pool and held by nobody; free and held pages still split the pool |
| Alloc.FreeConserves | src/alloc.c:66-88 | freeing a held page cannot fail, and free and held pages still split the pool |
| Alloc.Capacity | src/alloc.c:20-57 | a new allocator hands out 32767 pages and no more, the n-th of them at start + 4096 n |
| Alloc.RunConserves | src/alloc.c:20-88 | over every sequence of calls that free only held pages, nothing is lost, doubled, or both free and held, and next counts the held |
| Mm.Kernel.AllocZeroPage | src/alloc.c:59-64 | the page got is all zero and no other page changes |
| Mm.Kernel.DescendAndMap | src/mm.c:174-218 | on any memory, the loop returns and leaves exactly what the descent function says |
| Mm.Kernel.VmMapPage | src/mm.c:149-221 | on any memory equal to the function; on page tables: -1 exactly if va or pa is no multiple of 4096, bits 63 to 38 of va are not all equal, or va is already mapped, and then nothing changed; else the Sv39 walk of va's page gives pa with these permissions, every other address is as before, and the tables stay a tree of distinct allocator pages; on a gigapage the translation stays |
| Mm.MapOnTree | src/mm.c:149-221 | the same as a theorem about the function: outcome, translation of every address, tables, allocator and untouched data, for 0, 1 or 2 new tables and for an allocator that runs out |
| Mm.DescendOnTree | src/mm.c:174-218 | from any table on the path: the outcome, and the view of every address after it |
| Mm.AttachSound | src/mm.c:203-213 | one allocation and one stored entry extend the path of the address by a table and keep everything the descent relies on |
| Mm.DescentEnds | src/mm.c:180-199 | the leaf stored at the end of the path maps exactly this page |
| Mm.ValidEntriesKept | src/mm.c:174-218 | through whatever memory it descends, a call overwrites no valid entry outside the allocator's free pages |
| Mm.GigapageStands | src/mm.c:174-218 | on any memory, a call for an address in a gigapage changes no translation of that gigapage |
| Mm.MapsUnlessGigapage | src/mm.c:149-221 | a return of 0 means the page is mapped as asked if and only if the root entry is no gigapage, or the gigapage mapped it so before |
| Mm.GigapageSwallowsMap | src/mm.c:201-216 | a well-formed kernel in which the call returns 0, maps nothing and overwrites a word of mapped data |
| Mm.MapTranslates | src/mm.c:149-221 | the code's view after a map, read by the Sv39 walk: va's page maps as asked, all other addresses as before |
| Mm.DeepenTranslates | src/mm.c:203-213 | tables added before the allocator ran out change no translation |
| Mm.DescendExisting | src/mm.c:215-216 | following a valid pointer keeps the descent on the path of the address |
| Mm.DescendAttached | src/mm.c:203-216 | so does attaching a new table, and it is the only change |
| Mm.DescentEntry | src/mm.c:175-183 | the entry met on a level is valid exactly if the address's view before the call says so |
| BootMap.MapFreePage | src/mm.c:85-87 | one boot call of vm_map_page() succeeds, and takes exactly the tables that were missing |
| BootMap.MapSection | src/mm.c:85-108 | a section's loop maps exactly its pages to themselves minus the physical offset, within the table budget of its 2 MiB regions |
| BootMap.BudgetStep | src/mm.c:85-108 | mapping the next page of the kernel area takes new tables only when it enters a new region |
| BootMap.GigapagePte | src/mm.c:61-62 | the gigapage entry is the leaf entry with R, W and X |
| BootMap.VmInitKernelDirectMap | src/mm.c:50-66 | the 32 root entries map exactly the 32 GiB direct map, RWX, and leave all other addresses alone |
| BootMap.BootMeaning | src/mm.c:80-121 | all mappings of vm_init_kernel() together are the intended address space, address by address |
| BootMap.MapDevices | src/mm.c:110-121 | serial page, direct map and the guard at 0 complete the address space |
| BootMap.VmInitKernel | src/mm.c:68-123 | for every linker layout: every one of the 2^64 addresses translates as BootMap.BootAddresses says, and the walk faults on all others; at most 1030 pages taken |
| BootMap.BootAddresses | src/mm.c:80-121 | region by region in literal addresses: .text, .bss, .rodata and .data at va - 0xffffffff00000000, between 2 GiB and 4 GiB, with R-X, RW-, R-- and RW-; the direct map RWX and the serial page RW-; nothing else |
| BootMap.DirectMapPage | include/kernel/mm.h:73-89 | va_to_pa() undoes pa_to_va() on the direct map, and the boot address space translates the one to the other |
| BootMap.VaToPaOutside | include/kernel/mm.h:73-81 | outside the direct map va_to_pa() is nonzero exactly at the address one past its end |
| BootMap.LeavesStep | src/mm.c:85-108 | mapping with readable or executable flags adds no entry without R, W and X |
| BootDump.AddressOf | src/mm.c:174-218 | every entry of a level-0 table is read by the descent of some address |
| BootDump.OneGuard | src/mm.c:115-121 | the tables of boot hold exactly one entry without R, W and X, and it points to page 0 |
| BootDump.BootTablesDump | src/mm.c:223-264 | after vm_init_kernel(), dump_ptbs() may be called whenever at most 511 tables were taken, and counts one more than that |
| BootMap.HandOver | src/mm.c:144-146 | every page of the new pool is the direct-map image of a physical page that is no table |
| BootMap.MmInit | src/mm.c:125-147 | after mm_init() all of the above holds, and the relocated root pointer translates to the root page |
| BootMap.VmInit | src/mm.c:279-286 | satp selects Sv39 and the page number of exactly the root that the translations are about |
| BootMap.SatpFields | src/mm.c:283-284 | or-ing mode and page number keeps both fields apart |
| PtbDump.ReadEntries | src/mm.c:239-260 | one table's entries push each pointer once, within the 512 slots |
| PtbDump.PushEntry | src/mm.c:253-254 | a pushed pointer had not been discovered before |
| PtbDump.PopItem | src/mm.c:236-238 | an item popped was not visited before, and the stack fits next to what is done |
| PtbDump.VisitComplete | src/mm.c:236-261 | with the stack empty, every table and guard has been visited |
| PtbDump.ItemCount | src/mm.c:229-263 | the items to visit are the tables and the guards, counted once each |
| PtbDump.DumpPtbs | src/mm.c:223-264 | terminates, visits every table and every null guard exactly once within 512 slots, and counts them |
| CString.StrLen | src/string.c:66-71 | the number of bytes before the first NUL |
| CString.StrCmp | src/string.c:41-50 | 0 exactly for equal strings, negative exactly if the first comes first in dictionary order |
| CString.BeforeMeans | src/string.c:41-64 | the order of the comparisons: the first byte that differs decides, or the end of the shorter string |
| CString.StrNCmp | src/string.c:52-64 | 0 exactly if the strings agree on their first n bytes, negative exactly if the first n bytes of the first come first in dictionary order; n = 0 behaves as n = 1 |
| CString.ParseDigits | src/string.c:120-134 | the digits' value modulo 2^64, or 0 at the first byte that is no digit of the base |
| CString.StrToU64 | src/string.c:94-135 | skips a minus sign, accepts 0b and 0x only in their base, and returns the magnitude modulo 2^64 |
| Numerals.DecimalNumber | src/string.c:94-135 | in base 10 the result is the positional value of the decimal digits behind at most one minus sign, modulo 2^64; with any other byte, 0 |
| Numerals.HexNumber | src/string.c:94-135 | in base 16 0x or 0X may stand in front; a digit is a byte whose distance from '0' is below 16, so no letter is |
| Numerals.BinaryNumber | src/string.c:94-135 | in base 2 0b or 0B may stand in front, and the digits are 0 and 1 |
| CString.AccumulateMod | src/string.c:130-131 | wrapping around at every step gives the residue of the unbounded value |
| DeviceTree.FirstNamedIsFirst | src/dtb.c:229-241 | the reference search returns a node with the name, none before it has it, and nothing exactly if no node has it |
| DeviceTree.PreorderMeans | src/dtb.c:125-227 | preorder lists exactly the nodes of the tree, by ascending position of their begin tokens |
| DeviceTree.FirstNamedIsLowest | src/dtb.c:229-241 | so the node searched for is, of all nodes with the name, the one that begins first |
| DeviceTree.EncodeMeans | src/dtb.c:132-216 | a node is the token 1, its name with NUL and padding, its properties, its subnodes and the token 2 |
| DeviceTree.EncodePropMeans | src/dtb.c:249-258 | a property is the token 3, the length, the offset of the name, the value and padding; a NOP is the token 4 |
| DeviceTree.PaddingMeans | src/dtb.c:144-173 | names and values are followed by zeros up to a multiple of four bytes |
| DeviceTree.Be32Means | src/dtb.c:10-16 | in an encoded word the first byte weighs most |
| Dtb.WordMeans | src/dtb.c:10-16 | the word read weighs the first of the four bytes most |
| Dtb.HeaderFields | src/dtb.c:20-27 | off_dt_struct is read from byte 8 and off_dt_strings from byte 12 of the blob |
| Dtb.WordOfBe32 | src/dtb.c:10-16 | reading a big-endian word on a little-endian machine gives back the number encoded |
| Dtb.SkipsAgree | src/dtb.c:173 | the 32-bit and the 64-bit rounding of a length agree if and only if it is at most 2^32 - 4 |
| Dtb.DtbReadStructToken | src/dtb.c:94-123 | the five tokens, and unknown for every other word |
| Dtb.NodeBegins | src/dtb.c:141-146 | the name and the start of the properties are found where the encoding puts them |
| Dtb.SkipProps | src/dtb.c:165-185 | stops exactly behind the last property, wherever NOPs stand |
| Dtb.DtbMatchNodeNameRec | src/dtb.c:125-227 | reports the first node in preorder with the name, or a pointer exactly behind this node's end token; terminates |
| Dtb.DtbMatchNodeName | src/dtb.c:229-241 | on a blob given by its header bytes and structure block: right if and only if no NOP stands before the root or the name is absent; behind a leading NOP it finds nothing |
| Dtb.DtbNodeMatchProperty | src/dtb.c:243-277 | the first of the node's own properties with the name, with its length and value offset, and none if absent |
| Dtb.PropertyOfNode | src/ktest/startup.c:21-22 | the two searches one after the other: of the own properties of the first node with the name, the first whose name in the strings block is the one asked for, its length and the position of its value bytes; none exactly if none has the name |
| Dtb.ValuesStand | src/dtb.c:251-258 | each property listed has the length of its value, and its value offset is where the value's bytes stand |
| Dtb.PropertyMeans | src/dtb.c:251-265 | the record returned is that of the first property with the name, and points to its name and its value |
| Dtb.LeadingNops | src/dtb.c:234-235 | every tree has a blob, header, structure block and strings block, with any number of NOPs before its root |
| Dtb.LeadingNopHidesRoot | src/dtb.c:132-139 | a blob with one leading NOP whose root has the name searched for, which is the case that dtb_match_node_name() misses |
| Dtb.FirstPropIsFirst | src/dtb.c:243-277 | the property returned has the name, none of the node's properties before it has, and none is returned exactly if no property has it |
| Dtb.PreorderAt | src/dtb.c:191-211 | every node listed in preorder is encoded at the position listed |
| Dtb.FoundNodeStands | src/dtb.c:243-277 | the record of any node found points to its begin token and to its name, and is one the property scan accepts, with that node's own properties and never a child's |
| Serial.Hart.IrqSave | src/trap.c:58-63 | returns the flags as they were and clears SIE alone |
| Serial.Hart.IrqRestore | src/trap.c:65-68 | writes back exactly the saved flags |
| Serial.Hart.IrqDisable | src/trap.c:70-73 | clears SIE and leaves SPIE alone |
| Serial.Hart.IrqEnable | src/trap.c:53-56 | sets SIE and leaves SPIE alone |
| Serial.SpinLock.TryLock | include/arch/spinlock.h:29-52 | the lock is taken afterwards, and acquired exactly if it was free |
| Serial.SpinLock.Lock | include/arch/spinlock.h:74-77 | a free lock is taken and the loop ends |
| Serial.SpinLock.LockIrqSave | include/arch/spinlock.h:126-132 | lock taken, SIE clear, old flags returned |
| Serial.SpinLock.UnlockIrqRestore | include/arch/spinlock.h:141-147 | lock free, flags as given |
| Serial.SerialDev.constructor | src/drivers/serial.c:18-25 | empty buffer, free lock, cleared receive FIFO |
| Serial.SerialDev.SerialIrq | src/drivers/serial.c:43-50 | one byte moves from the device to the end of the buffer, or stays in the device if the buffer is full |
| Serial.SerialDev.SerialRead | src/drivers/serial.c:52-66 | copies out exactly the buffer, empties it, touches nothing behind, and gives the lock and both interrupt flags back |
| SerialSystem.StepKeeps | src/drivers/serial.c:43-66 | every enabled step of either thread can be taken and keeps the whole invariant |
| SerialSystem.RunKeeps | src/drivers/serial.c:43-66 | the invariant holds after every run, with interrupts and arrivals anywhere |
| SerialSystem.ByteConservation | src/drivers/serial.c:43-66 | in every reachable state: bytes returned, then bytes in the driver, then the handler's byte, then the device's are all bytes that arrived, in order; with nobody in the driver, those returned, those in dev.buf and those in the device |
| SerialSystem.NoSelfDeadlock | include/arch/spinlock.h:74-145 | in every reachable state a held lock means SIE is clear, and whoever is about to take the lock finds it free |
| SerialSystem.NeverStuck | src/drivers/serial.c:43-66 | in every reachable state a thread can move, without an index out of range |
| SerialSystem.SieRestored | src/trap.c:58-73 | serial_read() returns with SIE as at its call, wherever interrupts landed, also between reading and clearing the flags |
| SerialSystem.SpieStale | src/trap.c:58-68 | the SPIE written back differs from the current one if and only if a trap came between read and clear of a call that had read 0 |
| SerialSystem.SpieStaleRun | src/trap.c:58-68 | a run that reaches this |
| SerialSystem.ShellRefinement | src/kmain.c:33-72 | in every reachable state the lines dispatched are exactly the command lines of a prefix of what arrived, which is all that was returned but the bytes not yet looked at, and the open line is shorter than the buffer |
| SerialSystem.UninterruptedRead | src/drivers/serial.c:52-66 | without interrupts, serial_read() returns everything buffered after len + 8 steps: the transition system does what Serial.SerialDev.SerialRead states |
| SerialSystem.UninterruptedIrq | src/trap.c:12-25 | a serial interrupt runs to its end in 7 or 4 steps and moves one byte, or none if the buffer is full |
| Shell.LinesMean | src/kmain.c:41-71 | no line holds a byte 10 or 13; the closed lines, each with the byte that ended it, and the open line are the stream again |
| Shell.LinesUnique | src/kmain.c:41-71 | and no other division of the stream has this property |
| Shell.LineCount | src/kmain.c:41-71 | as many lines are closed as the stream has bytes 10 and 13 |
| Shell.CommandsMean | src/kmain.c:47-70 | the commands are the closed lines in order, without the empty ones, each cut to 255 bytes |
| Shell.InterpretMeans | src/kmain.c:48-61 | which command a line runs, by the text it begins with: uptime, echo with the rest, alarm with the number in the rest, or unknown; a NUL ends the text |
| Shell.LinesSnoc | src/kmain.c:41-71 | one more byte closes the open line or extends it, in the definition of lines |
| Shell.AcceptBatches | src/kmain.c:33-36 | how serial_read() batches the bytes makes no difference |
| Shell.DispatchesCommandLines | src/kmain.c:33-72 | the accumulator dispatches exactly the non-empty lines between CRs and LFs, each cut to its first 255 bytes |
| Shell.AlarmArgument | src/kmain.c:54-57 | a digit string after "alarm " sets the alarm to the number it denotes |
| Shell.CommandShell.RunCommand | src/kmain.c:48-61 | the strncmp() tests on the raw buffer choose the command that the line's text up to a NUL asks for |
| Shell.CommandShell.ProcessByte | src/kmain.c:37-71 | one byte changes the buffer as the accumulator says, inside its 256 bytes, and runs what it dispatches |
| Shell.CommandShell.ProcessInput | src/kmain.c:36-72 | a batch of bytes is handled one after the other |
| Format.PrintParse | src/printf.c:64-113 | strtou64() in base 10 reads back the magnitude of any number printed in base 10, for every padding; behind a '#' prefix it reads 0 |
| Format.PrintIsInjective | src/printf.c:64-113 | different numbers never print alike, in any base, with any width, flag and case |
| Format.PaddedInjective | src/printf.c:92-110 | leading zeros and digits determine the number |
| FormatLaws.DirectiveReads | src/printf.c:162-273 | every text of a directive is read as such: c, d, u, x, X, s and p; base 10 for d and u and 16 for x, X and p; signed for d alone; flags 0 and #; the width modulo 256; hh, h, l and ll as 1, 2, 8 and 8 bytes |
| FormatLaws.DirectivePrints | src/printf.c:277-345 | a directive takes one argument, and printing goes on behind it |
| FormatLaws.PlainTextPrints | src/printf.c:299-302 | bytes other than '%' print themselves |
| FormatLaws.NothingPrints | src/printf.c:290-292 | the end of the format ends the output |
| FormatLaws.StrayPercentPrints | src/printf.c:333-338 | a '%' that begins no directive prints itself, and what follows it is read again |
| FormatLaws.EveryTail | src/printf.c:264-273 | whatever follows a '%' is one of the texts these laws speak about |
| FormatLaws.NumberPrints | src/printf.c:64-113 | d, u, x and X with any flag, width and length: a minus sign if negative, 0x for #, and digits of the right base and case that an independent reader reads as the magnitude, without leading zeros except those of the 0 flag |
| FormatLaws.PointerPrints | src/printf.c:134-149 | p prints 0x and the whole word in lower-case hexadecimal |
| FormatLaws.TextPrints | src/printf.c:115-132 | c prints the lowest byte of its argument, s the string it points to |
| FormatLaws.HexPrints | src/printf.c:231-240 | "%x" of n is n in lower-case hexadecimal digits, "%X" in upper-case ones |
| FormatLaws.DecimalPrints | src/printf.c:223-230 | "%u" of n is n in decimal digits, "%d" the signed word |
| FormatLaws.PlainPointerPrints | src/printf.c:244-248 | "%p" of n is 0x and n in lower-case hexadecimal digits |
| FormatLaws.EightHexDigits | src/printf.c:99-110 | "%08x" of a positive 32-bit number is exactly eight digits, and they denote it |
| Printf.PrintedNumberParses | src/printf.c:277-345 | what any single decimal directive without '#' leaves in the buffer, strtou64() parses back to the magnitude of its argument |
| Printf.TruncateReadsArgument | src/printf.c:151-160 | the two shifts read exactly the low bits of the argument, in two's complement if signed |
| Printf.InverseDigits | src/printf.c:92-97 | tmp holds the numeral in reverse, in at most 64 bytes |
| Printf.PutNumber | src/printf.c:64-113 | sign, prefix, zeros up to the width and digits, in this order and nothing else; padding ignores sign and prefix, and 0 is one digit |
| Printf.PutString | src/printf.c:115-123 | writes the string up to its NUL |
| Printf.PutCharacter | src/printf.c:125-132 | writes the byte |
| Printf.ParseFlag | src/printf.c:162-178 | at most one flag is consumed |
| Printf.ParseWidth | src/printf.c:180-192 | all digits are consumed and the width is their value modulo 256 |
| Printf.ParseLength | src/printf.c:194-213 | the longest of hh, h, l and ll is consumed, with its size |
| Printf.ParseType | src/printf.c:215-262 | conversion, base and flags of the type byte, whose meaning letter by letter is FormatLaws.DirectiveReads |
| Printf.ParseSpecifier | src/printf.c:264-273 | the four parsers in a row read exactly one directive of the grammar |
| Printf.PutItem | src/printf.c:308-332 | one argument is printed as its directive says |
| Printf.Vsnprintf | src/printf.c:277-345 | for every format and argument list the output is the reference rendering, whose meaning FormatLaws states, and a NUL, nothing else is written, and it terminates although invalid directives rewind; given room for the output and one byte more per invalid directive |

## Left out

- UART, PLIC and CSR register access: only SIE, SPIE, the lock word and a FIFO of received bytes are state here.
- Assembly entry, trap entry and exit: taken to be transparent to the interrupted code.
- The early identity mapping that lets boot code reach physical addresses, and the linker's choice of layout: `LinkerLayout` states what linker.ld guarantees, with the kernel in the last 2 GiB.
- Logging, `dtb_dump_header`, `dump_pte` and token names: they print and change nothing.
- `handle_exception` and `timer_irq`: another interrupt is any trap that leaves the serial driver alone.
- Console output of the shell (echo, prompts, uptime): commands are recorded as values, not as bytes sent.
- Liveness while the serial buffer is full: it depends on the hardware delivering the interrupt again.
- More than one hart, and memory ordering: the lock is proved free of self-deadlock on one hart.
- `strncpy`, `strstr`, `memcpy` and `memset64`: nothing modelled here uses them. `memset` on a page clears eight bytes at a time.
- `alloc_free_page()` on pages the caller does not hold: `Alloc.RunConserves` is about callers that free only what they hold.
- The A and D bits: a leaf entry without them translates; hardware that faults on them is not modelled.
- `vm_map_page()` after `mm_init()`: the allocator then hands out direct-map addresses, which it would take for physical ones.
- Behaviour after a `BUG()` that was only logged, beyond the values the functions return.
- Mm.Kernel.VmMapPage: flags are any below 2^10, and those that the hardware refuses on a leaf make the page fault; larger flags would overwrite the page number.
- Shell.CommandShell.RunCommand: does not model the messages that the shell prints, with their 64-byte output buffer; it states which command is run with which argument.
- PtbDump.DumpPtbs: requires tables and guards to number at most 512 together, because every guard also takes a slot of the stack, and every guard to point to page 0, because any other would be read as a table.
- Dtb.DtbMatchNodeName: blobs are encodings of a tree, because the code has no bounds checks; lengths are at most 2^32 - 4.
- Printf.Vsnprintf: requires room for the output and one byte more per invalid directive, because literal bytes are written without a bound check; what a smaller size truncates to is not modelled, and the output buffer does not overlap the strings read.
- Format.PrintParse: base 10 only, because `strtou64()` accepts the digits 0 to 9 alone.
- FMT_STATE_FLAG, FMT_STATE_WIDTH and FMT_STATE_LENGTH: no code sets them.
- `src/ktest` and the lab harness.
