# Verified model of mythril

Mythril is a hypervisor for Intel VT-x. This project models the parts of it whose correctness does not depend on the
hardware, and proves what its design promises of them for all inputs, all runs and all interleavings.

| file | part of mythril |
|---|---|
| `Common.dfy`, `Bits.dfy`, `Endian.dfy` | bytes, machine words as numbers with bitwise operations, byte orders |
| `Ept.dfy` | extended page table entries as bits, the four-level walk, what every tree keeps |
| `HostMemory.dfy` | host pages and tables, updated in place by mapping calls; refinement of a flat map |
| `GuestBytes.dfy` | reading and writing guest memory page by page; refinement of a flat byte array |
| `VmSetup.dfy` | the memory of each virtual machine: BIOS windows, images, RAM, APIC page; isolation of all machines |
| `FwCfg.dfy`, `FwCfgRuns.dfy`, `FwCfgBuilder.dfy` | the fw_cfg device: DMA requests in guest memory, any run of them, files and their directory |
| `Time.dfy` | instants, timers, the per-core timer wheel and all its runs |
| `Injection.dfy` | interrupt injection and interrupt windows over all runs of VM exits |
| `Devices.dfy` | ordered maps keyed by ranges where overlapping means equal |
| `Acpi.dfy` | checksums, system description tables, the MADT |
| `Loader.dfy`, `AcpiTables.dfy` | the SeaBIOS table loader: commands, generated program, what firmware makes of it |
| `Cores.dfy`, `CoreTimers.dfy` | all cores as one step system: barrier, start-up, queues, wake-ups, console, timers and their cancellation |
| `ApStart.dfy` | the start handshake between the boot processor and the other processors |

Code that changes things in place is modelled by classes, arrays and loops and proved against specification functions;
what the design promises is then proved about those functions. The multi-core protocol and the processor start are
step systems: a state, the steps each core can take, and invariants over every sequence of steps. Queue operations are
single steps because the source does them under a lock; a send and its interrupt are two steps. Inter-processor
interrupts are a latched bit, VMCS fields are plain variables, the clock is an object that never runs backwards, the
allocator hands out frames from a set of free ones, and the addresses firmware chooses are an arbitrary function.

Some properties hold only under a condition the code does not check. Each of these is stated with its exact condition:

* an image is visible at its load address for every content exactly when the address is page aligned
  (`VmLayout.VisibleIffAligned`);
* a table entry gives back the address put into it exactly when that fits in 52 bits
  (`EptEntry.TableEntryHoldsAddress`, `EptEntry.LeafEntryHoldsFrame`);
* the loader program allocates each file once, and so runs, exactly when no table has the signature "xsdt" or "rsdp"
  (`AcpiTables.LoaderIsSound`);
* a written header verifies exactly when its checksum byte was zero before (`Sdt.HeaderWritten`);
* iteration over MADT structures ends exactly for well-formed buffers (`Madt.EndsIffWellFormed`);
* the search needs non-empty ranges: any empty range with nothing else between its two ends makes a device map, whatever
  else it holds, lose or refuse a range that shares nothing with any other (`Devices.EmptyRangeBreaksSearch`).

Where code and documentation disagree the model follows the code. The SKIP request of fw_cfg moves to an absolute
position, while the QEMU documentation of the fw_cfg device describes it as moving forward. The loader documentation
asks for exactly one allocation per file, which the builder does not enforce for the two signatures named above.

## Model

| member | source | states |
|---|---|---|
| `EptEntry.TableEntryHoldsAddress` | mythril/src/memory.rs:598-630 | the mask and flags of a table entry give back the stored address iff it is a frame below 2^52, and never look unused |
| `EptEntry.LeafEntryBits` | mythril/src/memory.rs:674-690 | the exact bits of a leaf: clearing the memory type drops IGNORE_PAT and the write-back type sets that bit again |
| `EptEntry.LeafEntryHoldsFrame` | mythril/src/memory.rs:646-690 | a leaf gives back its frame iff below 2^52, is used even for frame 0, and is writable iff not read-only |
| `Ept.PathIsOfPage` | mythril/src/memory.rs:30-48 | the four indices of an address are a function of bits 47:12 only |
| `Ept.PathsSeparatePages` | mythril/src/memory.rs:30-48 | two addresses have the same four indices iff bits 47:12 agree |
| `Ept.AddressFromPath` | mythril/src/memory.rs:30-53 | the indices are bits 47:39, 38:30, 29:21 and 20:12: weighted and added to the offset they give back the address modulo 2^48 |
| `Ept.LookupIsWalk` | mythril/src/memory.rs:364-397 | the walk over entries and the page-keyed lookup agree on every address |
| `Ept.GrowsKeepsLookups` | mythril/src/memory.rs:726-757 | adding empty tables changes no lookup of any space |
| `Ept.LeafIsItsOwnPage` | mythril/src/memory.rs:762-774 | filling one leaf changes the lookup of one page of one space and no other, in any set of trees |
| `HostMemory.HostMemory.NewPage` | mythril/src/memory.rs:292-301 | a new frame was free, is zeroed and is mapped nowhere |
| `HostMemory.HostMemory.NewPageWith` | mythril/src/vm.rs:642-655 | the same for a page filled before it is mapped |
| `HostMemory.HostMemory.NewSpace` | mythril/src/memory.rs:272-276 | a new space maps nothing and leaves every other lookup alone |
| `HostMemory.HostMemory.EnsureChild` | mythril/src/memory.rs:726-733 | an existing table is reused unchanged, a missing one is created empty in its place in the tree |
| `HostMemory.HostMemory.EnsurePageTable` | mythril/src/memory.rs:726-751 | after the upper three levels the page table of the path is there, and nothing changed if the leaf was in use |
| `HostMemory.HostMemory.FillLeaf` | mythril/src/memory.rs:753-774 | exactly one page of one space changes, and each mapped frame keeps a single home |
| `HostMemory.HostMemory.MapFrame` | mythril/src/memory.rs:715-774 | success maps exactly that page with that permission; a duplicate is reported iff the page is mapped and changes nothing at all; memory runs out only with no free frame, and at most three are taken |
| `HostMemory.HostMemory.FindHostFrame` | mythril/src/memory.rs:364-397 | finds a frame iff the page is mapped, the first one mapped, and says at which level the walk stops |
| `HostMemory.HostMemory.MapRequested` | mythril/src/memory.rs:278-290 | one mapping call is one step of the flat map, unless no frame is free |
| `HostMemory.HostMemory.MapFrames` | mythril/src/memory.rs:715-774 | after any sequence of mapping calls the tree refines the flat map, each call is a duplicate iff the flat map had its page, and none runs out of memory with more than three free frames per call |
| `HostMemory.FlatHoldsRequested` | mythril/src/memory.rs:715-774 | the flat map has exactly the pages some request named |
| `HostMemory.FlatHoldsFirst` | mythril/src/memory.rs:753-774 | a page keeps the frame and permission of its first request |
| `HostMemory.HostMemory.MappedFrameHome` | mythril/src/memory.rs:715-774 | the slot a mapped frame is reached from names its space and page |
| `HostMemory.HostMemory.FramesNeverShared` | mythril/src/memory.rs:292-301 | two mapped pages have the same frame iff they are the same page of the same space, and no mapped frame is a table |
| `GuestBytes.PatchIsLocal` | mythril/src/memory.rs:447-476 | patching a frame changes those bytes of that space and no byte of any space beside |
| `GuestBytes.WriteBytes` | mythril/src/memory.rs:447-476 | succeeds iff all pages are mapped, is then an update of the flat byte array; a failing write has changed a prefix ending at a page boundary |
| `GuestBytes.ReadBytes` | mythril/src/memory.rs:413-445 | succeeds iff all pages are mapped, and returns that slice of the flat byte array |
| `GuestBytes.WriteThenRead` | mythril/src/memory.rs:413-476 | what is written to a mapped range is read back, for every start and length |
| `VmLayout.VisibleIffAligned` | mythril/src/vm.rs:635-666 | every image shows at its load address iff that is page aligned |
| `VmLayout.PlacedByte` | mythril/src/vm.rs:635-666 | each placed byte, with zeros to the end of the last page |
| `VmLayout.LayoutContents` | mythril/src/vm.rs:697-725 | all RAM pages are there, aligned placements hold their bytes zero-padded, every other RAM page is zero |
| `VmSetup.MapPage` | mythril/src/memory.rs:292-301 | one new page with given contents, or a duplicate iff the page was mapped, or no free frame; at most four frames are taken |
| `VmSetup.MapData` | mythril/src/vm.rs:635-666 | adds the placed pages, or is a duplicate only if some page of the data was mapped, or no frame is free |
| `VmSetup.MapBios` | mythril/src/vm.rs:683-695 | the same bytes below 1 MiB and below 4 GiB, or an overlap, or no free frame |
| `VmSetup.MapImages` | mythril/src/vm.rs:707-709 | all images placed, or a missing module, or an overlap, or no free frame |
| `VmSetup.FindModuleFirst` | mythril/src/boot_info.rs:15-25 | a module is found iff some module has the name, and it is the first that has |
| `VmSetup.FillRam` | mythril/src/vm.rs:712-725 | RAM fills exactly the pages nothing else has, or no frame is free |
| `VmSetup.SetupEpt` | mythril/src/vm.rs:697-725 | the new space holds the layout and every image range reads the bytes of the module of its name; a failure names its cause, and memory runs out only with at most one frame and four per page free; no other space changes |
| `VmSetup.GuestSeesLayout` | mythril/src/vm.rs:697-725 | every address of the guest reads the byte of the layout, or nothing where the layout has none |
| `VmSetup.ImagesRead` | mythril/src/vm.rs:668-681 | a space that holds all placements has each image's module in place, byte for byte |
| `VmSetup.VmImagesRead` | mythril/src/vm.rs:496-506 | so it is once the APIC page is mapped |
| `VmSetup.BiosWindows` | mythril/src/vm.rs:683-695 | byte k from the end of the BIOS is at 0xFFFFF - k and at 0xFFFFFFFF - k |
| `VmSetup.ApicFreeIff` | mythril/src/vm.rs:496-506 | the APIC page is free iff RAM ends below it and no placement covers it |
| `VmSetup.CreateVm` | mythril/src/vm.rs:455-506 | one machine with its APIC page, under the same conditions |
| `VmSetup.CreateVms` | mythril/src/vm.rs:55-62 | any list of configurations: each machine holds its own layout and all are isolated, or the first failure names its cause; memory runs out only within the total cost |
| `VmSetup.AllIsolated` | mythril/src/vm.rs:635-725 | all frames reachable from any page of any machine are distinct and none is a table |
| `FwCfg.FlagsRoundTrip` | mythril/src/virtdev/qemu_fw_cfg.rs:91-99 | control flags survive their bit encoding |
| `FwCfg.RequestRoundTrip` | mythril/src/virtdev/qemu_fw_cfg.rs:101-117 | a request a guest lays out is decoded to itself |
| `FwCfg.ReplyControlWord` | mythril/src/virtdev/qemu_fw_cfg.rs:257-292 | the control word written back is 1 iff the request reads a missing item, writes, or had ERROR set, and 0 otherwise |
| `FwCfg.ReplyKeepsRest` | mythril/src/virtdev/qemu_fw_cfg.rs:72-81 | the rest of the record is written back as it was |
| `FwCfg.RequestMeans` | mythril/src/virtdev/qemu_fw_cfg.rs:257-284 | which item a request reads, from where, whether it delivers, and how far the position moves |
| `FwCfg.QemuFwCfg.ReadSelector` | mythril/src/virtdev/qemu_fw_cfg.rs:306-321 | the next slice of the selected item, and the position moves past it |
| `FwCfg.QemuFwCfg.PerformDma` | mythril/src/virtdev/qemu_fw_cfg.rs:243-304 | succeeds iff request and target are mapped; guest memory is the slice at its target and the reply over the request, nothing else; a failure leaves everything as it was, or a prefix of the slice up to a page that is not mapped |
| `FwCfg.QemuFwCfg.WriteDmaLow` | mythril/src/virtdev/qemu_fw_cfg.rs:377-383 | joins the halves and transfers; the address is cleared on success and stays on failure, with what the failure leaves |
| `FwCfg.Swap32Twice` | mythril/src/virtdev/qemu_fw_cfg.rs:377-387 | the byte swap of the ports undoes itself |
| `FwCfg.Swap32IsBigEndian` | mythril/src/virtdev/qemu_fw_cfg.rs:377-387 | it reads the bytes of a port access as a big-endian number |
| `FwCfg.JoinHalves` | mythril/src/virtdev/qemu_fw_cfg.rs:377-387 | the bitwise union of the two halves is the address |
| `FwCfg.GuestDma` | mythril/src/virtdev/qemu_fw_cfg.rs:361-392 | a driver's whole request through the two ports has the effect of the transfer it describes; on failure the request and a prefix of the slice are in place and the position has moved |
| `FwCfg.ReadItem` | mythril/src/virtdev/qemu_fw_cfg.rs:243-321 | READs after a SELECT deliver consecutive slices to their targets; the rest of memory, but for the record, is unchanged in every guest |
| `FwCfgRuns.DmaRun` | mythril/src/virtdev/qemu_fw_cfg.rs:243-392 | any run of requests of any kind, each with its own record: the position is the fold of the requests, and every step of the memory trace is that request's transfer |
| `FwCfgRuns.RecordAnswered` | mythril/src/virtdev/qemu_fw_cfg.rs:287-303 | right after each request of any run its record reads back a control word of ERROR iff it read a missing item, wrote, or had ERROR set, and 0 otherwise |
| `FwCfgRuns.SliceDelivered` | mythril/src/virtdev/qemu_fw_cfg.rs:268-284 | right after each read of any run its slice is at its target |
| `FwCfgRuns.ReadsAreConsecutive` | mythril/src/virtdev/qemu_fw_cfg.rs:257-266 | with no SELECT or SKIP in between, a request is where an earlier one began plus all that was delivered since; a SELECT begins at 0 |
| `FwCfgRuns.SlicesAreConsecutive` | mythril/src/virtdev/qemu_fw_cfg.rs:306-321 | the slice of a later read starts where those before it ended, in the same item |
| `FwCfgRuns.ReadAfterSkip` | mythril/src/virtdev/qemu_fw_cfg.rs:263-266 | a read together with a SKIP of n bytes, or after it, starts at byte n of the item plus what was delivered since |
| `FwCfgRuns.RestUntouched` | mythril/src/virtdev/qemu_fw_cfg.rs:243-304 | over any stretch of any run every byte outside records and targets is unchanged, in every guest |
| `FwCfgRuns.SliceStays` | mythril/src/virtdev/qemu_fw_cfg.rs:268-284 | a delivered slice stays until a later record or target touches it |
| `FwCfgBuilder.QemuFwCfgBuilder.NextFileSelector` | mythril/src/virtdev/qemu_fw_cfg.rs:176-186 | the largest file selector plus one is the first selector not in use |
| `FwCfgBuilder.QemuFwCfgBuilder.AddFile` | mythril/src/virtdev/qemu_fw_cfg.rs:188-219 | succeeds iff name and number fit, appends the file, and overwrites no item |
| `FwCfgBuilder.QemuFwCfgBuilder.AddBytes` | mythril/src/virtdev/qemu_fw_cfg.rs:221-227 | an item outside the file range leaves all files alone |
| `FwCfgBuilder.QemuFwCfgBuilder.Build` | mythril/src/virtdev/qemu_fw_cfg.rs:137-174 | the directory item lists all files in order |
| `FwCfgBuilder.DirectoryRoundTrip` | mythril/src/virtdev/qemu_fw_cfg.rs:137-174 | firmware that walks the directory reads back the count and every entry |
| `Instants.TicksAreFloor` | mythril/src/time.rs:92-95 | a duration in ticks is freq*d/10^9 rounded down once |
| `Instants.SinceExceeds` | mythril/src/time.rs:119-127 | the exact tick count at which the elapsed test turns true |
| `Instants.ElapsedIsPastDeadline` | mythril/src/time.rs:89-127 | despite both roundings, elapsed implies strictly past the deadline |
| `TimerWheel.CoreWheel.ElapsedOneShots` | mythril/src/time.rs:294-305 | exactly the one-shot timers that elapsed at their reading of the clock, in order |
| `TimerWheel.CoreWheel.RemoveElapsed` | mythril/src/time.rs:306-309 | those timers are gone, and their interrupts are reported once each in order |
| `TimerWheel.CoreWheel.ResetElapsed` | mythril/src/time.rs:311-318 | exactly the elapsed periodic timers fire and restart where they elapsed |
| `TimerWheel.CoreWheel.ExpireElapsedTimers` | mythril/src/time.rs:290-322 | the two passes together are one expiry step; the interrupts are those of the fired timers, one-shots first |
| `TimerWheel.CoreWheel.RegisterTimer` | mythril/src/time.rs:347-359 | the next number, started at a reading of the clock |
| `TimerWheel.CoreWheel.RemoveTimer` | mythril/src/time.rs:372-376 | removes that timer of this core and no other |
| `TimerWheel.CoreWheel.CancelTimer` | mythril/src/time.rs:400-412 | removes a local timer, or names the core to send the cancellation to |
| `TimerWheel.CoreWheel.UpdateDeadline` | mythril/src/time.rs:324-339 | the instant given to the APIC is the soonest deadline |
| `TimerWheel.TimersAreConserved` | mythril/src/time.rs:290-376 | over every run: live plus removed plus fired equals present at the start plus registered |
| `TimerWheel.GoneTimersStaySilent` | mythril/src/time.rs:342-376 | a timer that was removed or fired as a one-shot never fires again |
| `TimerWheel.FiresWhenDue` | mythril/src/time.rs:218-238 | fires iff t*10^9 >= (d+1)*freq, and then strictly past its deadline |
| `TimerWheel.StartsStayInThePast` | mythril/src/time.rs:227-238 | over every run no timer is started after the present, which the absolute difference relies on |
| `TimerWheel.PeriodicDoesNotDrift` | mythril/src/time.rs:227-238 | after k firings the start is exactly start + k*floor(freq*d/10^9) |
| `TimerWheel.PeriodicKeepsTime` | mythril/src/time.rs:89-96 | after k firings the start has moved by k periods each rounded down to a tick: never ahead of k*freq*d/10^9 ticks and behind by less than k |
| `TimerWheel.PeriodicStaysBehind` | mythril/src/time.rs:227-238 | once fired, the start stays strictly before the present |
| `Injection.ArriveMeans` | mythril/src/vcpu.rs:163-169 | a vector is pending iff it was or arrived, with the kind of its last arrival, else its old kind |
| `Injection.WindowWritten` | mythril/src/vcpu.rs:521-537 | setting and clearing the window bit in the control word |
| `Injection.EntryInfoCarries` | mythril/src/vcpu.rs:541-546 | the entry field is valid and carries vector and kind |
| `Injection.EntryInfoBits` | mythril/src/vcpu.rs:84-92 | the literal field for each of the seven kinds |
| `Injection.InterruptFlag` | mythril/src/vcpu.rs:524 | the flag mask tests bit 9 |
| `Injection.VCpu.HandleVmexit` | mythril/src/vcpu.rs:478-566 | injects exactly the least pending vector with its kind if the guest can take it, nothing otherwise; when it fails |
| `Injection.RunExits` | mythril/src/vcpu.rs:478-566 | a virtual CPU through any list of exits goes through a run, up to the first exit it cannot handle |
| `Injection.WindowIffPending` | mythril/src/vcpu.rs:505-563 | at every return to the guest of every run the window is requested iff something is pending |
| `Injection.WaitIsBounded` | mythril/src/vcpu.rs:539-563 | a vector pending or arriving at the first exit stays until injected, and waits at most one interruptible exit per smaller vector present or arriving |
| `Injection.ArrivalWaitIsBounded` | mythril/src/vcpu.rs:539-563 | the same for a vector that arrives at any exit of the run |
| `Devices.OverlapIsNotTransitive` | mythril/src/virtdev/mod.rs:104-114 | equality of the ordering is not transitive |
| `Devices.CompareFlips` | mythril/src/virtdev/mod.rs:104-132 | the two directions of a comparison agree iff the ranges are not each before the other |
| `Devices.SortedDisjoint` | mythril/src/virtdev/mod.rs:182-223 | registered regions are pairwise disjoint |
| `Devices.SearchFinds` | mythril/src/virtdev/mod.rs:146-164 | in a sorted tree of any shape the search finds an entry iff some entry overlaps |
| `Devices.LookupIsScan` | mythril/src/virtdev/mod.rs:146-164 | a lookup finds exactly the entry a linear scan finds |
| `Devices.InsertKeepsSorted` | mythril/src/virtdev/mod.rs:182-223 | an insertion without conflict adds that entry and keeps the order |
| `Devices.EmptyRangeBreaksSearch` | mythril/src/virtdev/mod.rs:104-132 | in any sorted map, after an empty range with nothing between its ends, some range that shares nothing with any is refused or not found |
| `Devices.DeviceMap.FindPort` | mythril/src/virtdev/mod.rs:146-154 | the device whose range contains the port, iff there is one |
| `Devices.DeviceMap.FindAddress` | mythril/src/virtdev/mod.rs:156-164 | the device whose range contains the address, iff there is one |
| `Devices.DeviceMap.RegisterDevice` | mythril/src/virtdev/mod.rs:182-223 | earlier regions stay; a rejected device has claimed the prefix before the conflicting region |
| `Devices.ClaimedMeans` | mythril/src/virtdev/mod.rs:182-223 | a device claims exactly its whole regions of each kind |
| `Devices.DeviceMap.RegisterThenFind` | mythril/src/virtdev/mod.rs:175-223 | every port and address of every region of a registered device finds it; everything outside finds what it found before |
| `Checksum.WrappingSumIsSum` | mythril/src/acpi/mod.rs:60-64 | the wrapping fold is the low byte of the sum |
| `Checksum.ChecksumCancels` | mythril/src/acpi/mod.rs:60-64 | the checksum is the byte that brings the sum to 0 mod 256 |
| `Checksum.StoredChecksumVerifies` | mythril/src/acpi/mod.rs:42-64 | storing it makes the bytes verify iff its place was zero before |
| `Sdt.WriteSdtHeader` | mythril/src/acpi/rsdt.rs:239-268 | the header in place, or an error that leaves the buffer alone |
| `Sdt.HeaderWritten` | mythril/src/acpi/rsdt.rs:239-268 | its fields, all bytes in between and the body untouched, and a sum that verifies iff byte 9 was zero |
| `Sdt.SdtRoundTrip` | mythril/src/acpi/rsdt.rs:75-97 | an encoded table parses back to its signature, revision and body, wherever it lies |
| `Madt.IcsIterator.Next` | mythril/src/acpi/madt.rs:388-423 | one step of the iterator, errors without progress included |
| `Madt.Iterate` | mythril/src/acpi/madt.rs:385-423 | draining the iterator ends and yields the structures in order |
| `Madt.EndsIffWellFormed` | mythril/src/acpi/madt.rs:388-423 | iteration reaches an end iff the buffer is well formed |
| `Madt.EncodedIsNext` | mythril/src/acpi/madt.rs:210-307 | an encoded structure is read back and consumed whole |
| `Madt.SpecifiedIsNext` | mythril/src/acpi/madt.rs:210-263 | all six kinds of structure, laid out as in section 5.2.12 of the ACPI specification, are read field by field and consumed whole |
| `Madt.EncodedAreFirst` | mythril/src/acpi/madt.rs:266-307 | encoded structures are iterated first and in order |
| `Madt.EncodeTable` | mythril/src/acpi/madt.rs:478-492 | succeeds iff all structures can be encoded and fit; then the body |
| `Madt.EncodeMadt` | mythril/src/acpi/rsdt.rs:297-312 | the whole table under the same condition |
| `Madt.BodyRoundTrip` | mythril/src/acpi/madt.rs:352-367 | the body gives back address, flags and structures, with zero for those not set |
| `Madt.MadtRoundTrip` | mythril/src/acpi/madt.rs:352-492 | build, encode, parse and iterate: same address and flags (zero if not set) and structures, and the checksum verifies |
| `LoaderCommands.Encode` | mythril/src/acpi/seabios.rs:156-234 | a record in place for every command, appended iff names and buffer allow |
| `LoaderCommands.RecordRoundTrip` | mythril/src/acpi/seabios.rs:156-234 | firmware decodes the command that was encoded |
| `LoaderCommands.RecordsRoundTrip` | mythril/src/acpi/seabios.rs:239-261 | and a whole loader file |
| `LoaderCommands.RunJoin` | mythril/src/acpi/seabios.rs:12-36 | running two programs in a row is running their concatenation |
| `LoaderCommands.RunKeepsAllocated` | mythril/src/acpi/seabios.rs:104-115 | a program that runs allocates each file once |
| `AcpiTables.RsdpBuffer` | mythril/src/acpi/rsdp.rs:243-273 | the RSDP filled in place |
| `AcpiTables.RsdpFileVerifies` | mythril/src/acpi/rsdp.rs:243-273 | its 20-byte and 36-byte sums are 0 mod 256, its length field is 36 and its address zero |
| `AcpiTables.XsdtBuffer` | mythril/src/acpi/rsdt.rs:355-360 | the XSDT header over a 4096-byte buffer, cut to its length |
| `AcpiTables.XsdtFileVerifies` | mythril/src/acpi/rsdt.rs:355-360 | its sum is 0 mod 256 although it was taken over the whole buffer |
| `AcpiTables.PointersStayInPlace` | mythril/src/acpi/rsdt.rs:384-389 | writing table addresses changes the entries only |
| `AcpiTables.PointerAt` | mythril/src/acpi/rsdt.rs:384-389 | entry i is the i-th address |
| `AcpiTables.FixedVerifies` | mythril/src/acpi/seabios.rs:32-36 | a checksum patch repairs bytes that are off by the sum of its range |
| `AcpiTables.TableRuns` | mythril/src/acpi/rsdt.rs:375-392 | the commands of one table load it and store its address |
| `AcpiTables.ProgramRuns` | mythril/src/acpi/rsdt.rs:350-403 | the generated program runs to its end |
| `AcpiTables.ClashFails` | mythril/src/acpi/seabios.rs:104-115 | with a table named "xsdt" or "rsdp" it cannot |
| `AcpiTables.RsdpIsSound` | mythril/src/acpi/rsdp.rs:194-211 | the patched RSDP passes both checksums, has length 36 and points to the XSDT |
| `AcpiTables.RsdpCanBeFound` | mythril/src/acpi/rsdp.rs:276-280 | with firmware that obeys the allocations the RSDP is 16-aligned in the F segment and all other tables 8-aligned |
| `AcpiTables.XsdtIsSound` | mythril/src/acpi/rsdt.rs:395-400 | the patched XSDT parses and its entries are the table addresses in order |
| `AcpiTables.LoaderIsSound` | mythril/src/acpi/rsdp.rs:243-294 | for any addresses: the run succeeds iff no name clashes, and then a guest finds every table through verified roots |
| `AcpiTables.TablesReachTheGuest` | mythril/src/acpi/rsdp.rs:243-294 | firmware that finds, decodes and runs the loader file gives the guest every table of any builder |
| `AcpiTables.ProgramReads` | mythril/src/acpi/seabios.rs:156-261 | firmware decodes the generated program from its file |
| `AcpiTables.RsdpBuilder.AddSdt` | mythril/src/acpi/rsdt.rs:329-347 | adds an encoded table under a new signature, in key order; refuses a taken signature or an oversized table |
| `AcpiTables.BuilderTablesAreDistinct` | mythril/src/acpi/rsdt.rs:329-347 | every builder's tables have distinct signatures |
| `AcpiTables.RsdpBuilder.BuildXsdt` | mythril/src/acpi/rsdt.rs:350-403 | the files and commands of the XSDT and all tables |
| `AcpiTables.RsdpBuilder.Build` | mythril/src/acpi/rsdp.rs:243-294 | succeeds iff there are at most five tables and the files fit, and adds exactly the built files |
| `AcpiTables.TableLoader.AddCommand` | mythril/src/acpi/seabios.rs:249-251 | room for sixteen commands |
| `AcpiTables.BuiltFilesAreStored` | mythril/src/acpi/rsdp.rs:243-294 | firmware finds each built file by name behind any others |
| `Cores.SendMeans` | mythril/src/vm.rs:219-255 | a send appends to that queue alone iff the core exists and has fewer than 100 messages waiting; otherwise nothing is queued and the sender stops |
| `Cores.ReceivedOk` | mythril/src/vm.rs:228-233 | a push keeps what the receiving core keeps, within its bound |
| `Cores.PolledOk` | mythril/src/vcpu.rs:183-212 | a turn of the waiting loop launches only on a start message |
| `Cores.StepOk` | mythril/src/vcpu.rs:568-586 | every step keeps: arrived is handled, then taken, then queued; bounds; phases; launches; start selectors |
| `Cores.CancelIsLocal` | mythril/src/vcpu.rs:574-576 | a cancellation is handled on the core that owns the timer and never forwarded, a grant on a first core |
| `Cores.StepMail` | mythril/src/vm.rs:219-276 | messages stay in each sender's order and are where they may be |
| `Cores.StepWake` | mythril/src/vm.rs:219-255 | a queue with a message to be told of has an interrupt pending, a core about to drain, or a sender about to interrupt |
| `Cores.WakeUpComes` | mythril/src/vm.rs:236-252 | if it is the sender, its next step alerts the core |
| `Cores.WaitingDropsNoConsole` | mythril/src/vcpu.rs:203-207 | a waiting core never discards a grant |
| `Cores.GrantOverwritesNothing` | mythril/src/vcpu.rs:571-573 | a grant that is handled finds its slot empty |
| `Cores.SendGrant` | mythril/src/vcpu.rs:697-717 | the console goes from a core's hands into a queue, or is lost with a failed send |
| `Cores.GrantGoesToNextVm` | mythril/src/vcpu.rs:709-715 | a passed console is queued at the first core of the next VM in turn |
| `Cores.StepConsole` | mythril/src/vcpu.rs:697-732 | every step leaves one console, or none once a grant was dropped |
| `Cores.OneConsole` | mythril/src/kmain.rs:43-53 | at most one console across all slots and messages, exactly one while no send of it failed |
| `Cores.StepBarrier` | mythril/src/vm.rs:513-522 | the counter counts the cores that have notified, and cores past the barrier saw all of them |
| `Cores.BarrierHolds` | mythril/src/vcpu.rs:59-65 | nobody is past the barrier while a core of the same VM still boots |
| `Cores.StartIsInitial` | mythril/src/vm.rs:124-167 | every good configuration has an initial state, with the UART in VM 0 |
| `Cores.EveryRun` | mythril/src/vcpu.rs:36-79 | all of this in every state of every interleaving of every configuration |
| `Cores.FifoPerSender` | mythril/src/vm.rs:286-292 | messages of one sender are handled in the order sent and none is skipped |
| `Cores.LaunchesOnce` | mythril/src/virtdev/lapic.rs:118-141 | a secondary core launches at most once, with selector vector*256 for the first start message that arrived, for which its sender wrote that vector and this core to its ICR |
| `Cores.StartupIsQueued` | mythril/src/virtdev/lapic.rs:118-153 | core d in bits 31:24 of the high half and mode 6 with vector v in the low half queue a start at v*4096 on core d |
| `CoreTimers.WheelsAreRuns` | mythril/src/time.rs:290-376 | in every run of the machine each core's timer wheel goes through a run of the timer wheel, so all that holds of those holds of it |
| `CoreTimers.StepEffect` | mythril/src/vcpu.rs:568-586 | which steps touch a core's timers, and how |
| `CoreTimers.CancelArrives` | mythril/src/time.rs:400-412 | a cancel sent without error is in the owner's mail, not yet handled |
| `CoreTimers.CancelTouchesOne` | mythril/src/vcpu.rs:574-576 | handling it removes that timer of that core and touches no other timer of any core |
| `CoreTimers.CancelledNeverFires` | mythril/src/time.rs:372-376 | once it is handled the timer is never live again and fires zero times, in every run |
| `CoreTimers.CancelReachesOwner` | mythril/src/time.rs:400-412 | from the send to every later state: the message is there, and after it is handled the timer is gone and silent |
| `CoreTimers.EveryCancel` | mythril/src/time.rs:400-412 | the same from the start of the machine in every interleaving |
| `ApStart.TargetsAreDistinct` | mythril/src/kmain.rs:248-260 | the loop starts exactly the assigned processors other than its own, with distinct core ids |
| `ApStart.BottomIsAlignedEnd` | mythril/src/kmain.rs:264-268 | the stack bottom is 16-aligned and within 16 bytes of the end of the stack |
| `ApStart.StepInvariant` | mythril/src/ap_startup.S:90-104 | every step of the loop, of a starting processor and of a running one keeps the invariant |
| `ApStart.EnteredAsWritten` | mythril/src/ap_startup.S:90-104 | a processor in Rust has the stack and core id written for it |
| `ApStart.OneInFlight` | mythril/src/kmain.rs:288-304 | at most one processor is between its start-up interrupt and its ready flag |
| `ApStart.EveryStart` | mythril/src/kmain.rs:248-305 | in every interleaving: right stack and id, none shared, one in flight, all reported at the end |
| `ApStart.NeverStuck` | mythril/src/kmain.rs:300-301 | while the boot processor waits, the processor it waits for can move on |

## Left out

- The guest paging walk `translate_pl4_address`: byte access is modelled for guests that run without paging.
- GuestBytes.ReadBytes: states nothing for ranges that reach 2^48, where the page iterator wraps onto low pages.
- GuestBytes.WriteBytes: states nothing for ranges that reach 2^48, for the same reason.
- GuestBytes.WriteThenRead: states nothing for ranges that reach 2^48, for the same reason.
- FwCfg.QemuFwCfg.ReadSelector: requires reads within the item, because the device panics on any other.
- FwCfg.QemuFwCfg.PerformDma: requires reads within the item, because the device panics on any other.
- FwCfg.ReadItem: is about one driver, with targets apart from the request record and each other; any run of requests is `FwCfgRuns.DmaRun`.
- FwCfgRuns.DmaRun: is about reads within their item, because the device panics on any other, and about mapped records and targets, because a request that fails stops the core.
- FwCfgBuilder.QemuFwCfgBuilder.AddBytes: states nothing for a selector of the file range, which the source would let replace a file; no caller passes one.
- Devices.DeviceMap.RegisterDevice: is about non-empty ranges, as all in the source are.
- The EPT memory type of a leaf is modelled as bits; no claim is made about its meaning.
- The allocator is a set of free frames below 2^52; `OutOfMemory` is a result where the source would abort.
- TimerWheel.TimersAreConserved: is about runs in which the 64-bit counter does not wrap.
- CoreTimers.EveryCancel: is about timers that were given out, and about runs in which the 64-bit counter does not wrap.
- Overflow of 64-bit and 128-bit time arithmetic, and what the APIC does with a deadline already past.
- The balancing of ordered maps: the device map is a search tree of any shape, other ordered maps are sorted sequences or sets.
- Injection.VCpu.HandleVmexit: takes the interrupts that handling an exit produced as an argument; exit handlers themselves are not modelled.
- Cores.LaunchesOnce: identifies the core id with the local APIC id, as the source does.
- A guest interrupt message is followed to the core that handles it; its injection there is an arrival of `Injection.VCpu.HandleVmexit`.
- Interrupt command register writes other than start-up are single sends of an interrupt; destination modes and shorthands are not decoded.
- AcpiTables.RsdpBuilder.AddSdt: is about signatures of four non-zero ASCII characters, as all in the source are.
- AcpiTables.LoaderIsSound: takes firmware to stop at a second allocation of a file, which the loader documentation rules out.
- The command that writes a pointer back to a file is encoded and decoded, but not generated and not given a meaning.
- Searching memory for the RSDP, the 32-bit RSDT, FADT and HPET fields.
- Devices without such properties: PIT, PIC, UART registers, PCI, I/O APIC, VGA, CPUID.
- Hardware instructions, instruction decoding, configuration parsing, boot memory regions and Linux image placement.
