# Storage, timing and printing core of an Arduino core: a verified model

The Renesas Arduino core builds its storage out of block devices stacked on one another: a write-back cache with
byte granularity, windows, concatenations, partitions, a lazily allocated RAM disk, two simulators of flash memory, an
EEPROM over data flash, and a USB mass-storage client. This project models that stack, and four smaller pieces in which
state or interleaving makes the reasoning hard: `micros()` against its timer interrupt, the pipelined SPI exchange, the
newline translation with the descriptor table and the registry of file objects, and the number printers.

Every wrapper claims to present one flat array of bytes. Its class has the fields of the original and one abstract view
(`V`, `View`, `Image`, `flat`), and each method is proved to act on that view as on an array, for dependable and for
failing devices below, including torn writes. A leaf device (`BlockDevices.Device`) has a `reliable` flag and a failure
code: a reliable device succeeds on every valid request, any other may fail any call with its code, and a
write-protected one refuses every write with a positive code.

| file | models |
|---|---|
| `Alignment.dfy`, `Bytes.dfy`, `Concatenation.dfy` | units, byte images, copies, concatenations |
| `BlockDevice.dfy` | the interface, its validity checks and a leaf device |
| `BufferedRounds.dfy`, `BufferedBlockDevice.dfy`, `BufferedRuns.dfy` | the write-back cache: its program loop on values, the cache itself, and whole runs of it |
| `SlicingBlockDevice.dfy`, `ChainingBlockDevice.dfy`, `ChainedSlices.dfy` | windows, concatenations, and both together |
| `MBRBlockDevice.dfy` | writing and reading back a partition table (section 5.2.1 of the UEFI Specification) |
| `HeapBlockDevice.dfy`, `FlashSimBlockDevice.dfy`, `ExhaustibleBlockDevice.dfy` | the RAM disk and the two simulators |
| `VirtualEEPROM.dfy`, `UsbMsd.dfy` | the EEPROM page and the mass-storage client |
| `Time.dfy`, `Spi.dfy`, `Itoa.dfy` | the clock, the SPI exchange, the number printers |
| `Newlines.dfy`, `StorageRetarget.dfy` | newline translation: the theory, and `_write` and `_read` |
| `DescriptorTable.dfy`, `FileBase.dfy` | the descriptor table and the registry of file objects |

Interleavings are inputs: what happens between two reads of a register, how many frames complete between two looks at a
flag, how much of a write a handle accepts. The statements hold for every such input.

## Where the code does not do what its documentation or a reader may expect

Each of these is kept as the code has it, with the exact condition under which the expected property holds and, where
the condition does not show it by itself, a witness that it is needed.

- All three checks of the block-device interface add address and size modulo 2^64, so a request whose end wraps back into
  the device is admitted. An admitted request lies inside the device if and only if its end is representable.
- A window, and a partition, checks a request against its own borders modulo 2^64 and forwards it modulo 2^64: every
  non-empty window can be left by such a request unless it starts the device, and a partition behind the start if and only
  if the program size divides 2^64. A request stays inside if and only if the start plus the address does not wrap (for a
  partition: if its own end does not).
- A window whose start lies above its stop is accepted by init. It rejects every request whose end does not wrap, but
  unless its stop is 0 it admits non-empty ones that reach the device.
- A chain reports success, and transfers nothing, for an admitted request from beyond its last child whose end wraps.
- The chain's erase check divides by the erase size it looks up, which is 0 beyond the last child: undefined if and only
  if the address lies there, or is on a border and the last byte (modulo 2^64) lies there, so also for an empty erase at 0.
- The chain logs, but does not refuse, children whose block sizes do not fit; init may leave an unusable chain.
- Erasing or trimming in the write-back cache also drops a pending unit that starts right after the range.
- A failed first init leaves the write-back cache counted as initialized but unusable, for good.
- The write-back cache rounds addresses to 32 bits, and its program does not check the range: from the first of its rounds
  that starts in a unit at or above 2^32, a request goes to that unit's address modulo 2^32, on small devices too, and may
  overwrite what is there, or be dropped, with success. It is not rerouted if and only if no round starts there; on a
  device below 2^32 bytes a request out of range is refused if it starts below.
- A write to the USB client that is not done is reported as negative if and only if the unit could not be opened or the
  device's failure code is negative: the library's own code for write protection is +4002, which looks like 4002 bytes
  written.
- The host of the USB client is told 16 bits of the erase size, while blocks are addressed by all of it: it finds any block
  but the first if and only if the erase size is below 2^16.
- Lengths from 2^31 on, returned by the USB client as signed numbers, look like errors.
- A partition given by a start alone is always taken from the end of the device, and of a start and a stop the signs are
  dropped; the header documents negative addresses as counted from the end.
- A partition record can be written for every program size that divides 512, but init cannot read it back for read sizes
  from 4 to 64.
- The place of the record, 512 minus the size of the buffer, has 32 bits: on devices of at least 2^32 + 512 bytes a record
  is also written for program sizes above 512 that divide that number, and then ends there. It is in bytes 446 to 511
  if and only if the program size divides 512.
- Offset and size of a partition are recorded in 32-bit numbers of sectors, without a check: each comes back, rounded to
  sectors, if and only if its number of sectors has 32 bits.
- Where the record of a partition can be read but not written, the attempt erases erase block 0, and the table with it.
- An exhausted unit can still be programmed by a request that starts in the unit before it. Exhausted units are kept,
  whatever the bytes, if and only if the counter of the first unit is 0 or no counter in the range is.
- Loading a second EEPROM block while a page is being edited, and then writing, puts the page over the second block. The
  edit is stored where it belongs if and only if both addresses lie in one block.
- While a page is being edited, EEPROM's `update` compares with flash and not with the page: a value that flash still holds
  is dropped, although the page may hold another. It takes effect if and only if flash holds a different value.
- EEPROM indexes outside flash are not refused: reads return what the variable held, and writes store nothing, without a
  sign of failure. On dependable flash exactly that part of an object is stored by `put` which lies in flash, and
  none of it while a page is being edited.
- A short write resumed later may send a carriage return twice; adjacent line feeds do not survive writing and reading
  back. After an error, unlike after a short count, the saved byte always fits.
- The RAM disk and the wear simulator index their tables with the address of any admitted request: undefined if and only
  if the end of the request wraps (for the simulator's erase on a device that may fail: unless it fails before), and for
  the simulator's program if and only if it does not start inside the device, as when it is empty and at the end.
- `close` looks up a negative descriptor, and clears the slot of any descriptor, without a check: undefined if and only
  if the number lies outside the table.
- The SPI exchange does not look at the receiver while it sends its first two words: with a receiver of one frame it is
  exact as long as no two frames complete within two consecutive looks.
- `micros()` is exact if and only if its correction of 0 or 1 equals the number of underflows not yet counted (modulo
  2^29); two half-period guards suffice.

## Model

| member | source | states |
|---|---|---|
| `BlockDevices.ValidReadExact` | libraries/BlockDevices/BlockDevice.h:92-94 | The read check admits exactly the aligned requests that end inside the device, and those whose 64-bit end wraps around back into it. |
| `BlockDevices.WrappedReadAdmitted` | libraries/BlockDevices/BlockDevice.h:92-94 | Witness: a wrapping request passes the check although it lies outside the device. |
| `BlockDevices.InsideExactly` | libraries/BlockDevices/BlockDevice.h:92-102 | An admitted request lies inside the device if and only if its end is representable in 64 bits: the guard that all three checks leave to callers. |
| `BlockDevices.AdmittedExactly` | libraries/BlockDevices/BlockDevice.h:92-102 | All three checks of a device for every 64-bit request: aligned at both ends to their own unit, and ending in range modulo 2^64. |
| `BlockDevices.Device.Read` | libraries/BlockDevices/BlockDevice.h:66 | A leaf device, for every 64-bit request: success only on an admitted request, and then, if the end does not wrap, exactly that slice is copied; a dependable device succeeds on all of those; any other may fail, with its own code, whatever that is. |
| `BlockDevices.Device.Program` | libraries/BlockDevices/BlockDevice.h:68 | A success splices the bytes; a failure, with the device's own code, leaves a torn write confined to the range; a request that is not admitted changes nothing; a write-protected device answers +4002 and stores nothing. |
| `BlockDevices.Device.Erase` | libraries/BlockDevices/BlockDevice.h:69 | A success fills the range with the erase value where there is one; a failure, with the device's own code, blanks some of it; no erase whose end does not wrap touches bytes outside the range. |
| `BufferedRounds.AlignDownExact` | libraries/BlockDevices/BufferedBlockDevice.cpp:24-27 | The rounding helper, which returns 32 bits, is exact if and only if the unit starts below 2^32. |
| `BufferedRounds.AlignDownModulo` | libraries/BlockDevices/BufferedBlockDevice.cpp:24-27 | What it loses is a multiple of 2^32. |
| `BufferedRounds.AlignDownLosesWholeChunk` | libraries/BlockDevices/BufferedBlockDevice.cpp:24-27 | Witness: a chunk of 2^32 bytes is rounded to zero. |
| `BufferedRounds.StopFound` | libraries/BlockDevices/BufferedBlockDevice.cpp:216-265 | The rounds of the program loop, with chunks as the code computes them, first start in a unit at or above 2^32 at the address `Stop` names, or never. |
| `BufferedRounds.ReroutesExactly` | libraries/BlockDevices/BufferedBlockDevice.cpp:24-27 | For unit sizes that divide 2^32, that happens if and only if the request has bytes at or above 2^32 and either starts behind the border 2^32 minus a unit, or does not end on a border. |
| `BufferedBlockDevices.StuckExactlyAfterFailedInit` | libraries/BlockDevices/BufferedBlockDevice.cpp:41-96 | Over every run of init and deinit with any results below: the wrapper is counted as initialized but unusable (and then for good, with further inits reporting success) if and only if some first init failed. |
| `BufferedBlockDevices.BufferedBlockDevice.Init` | libraries/BlockDevices/BufferedBlockDevice.cpp:41-70 | Init counts every call, keeps the presented array, starts with an empty cache, and makes the wrapper usable exactly if the first call of the count succeeds; it follows the lifecycle function. |
| `BufferedBlockDevices.BufferedBlockDevice.Deinit` | libraries/BlockDevices/BufferedBlockDevice.cpp:72-96 | The wrapper is only left with all pending data on the device, and only by the last of its users; the presented array is unchanged. |
| `BufferedBlockDevices.BufferedBlockDevice.Flush` | libraries/BlockDevices/BufferedBlockDevice.cpp:98-119 | Flushing never changes the array presented to callers; on success the device itself holds it; after a failure the cache still covers the half-written unit. |
| `BufferedBlockDevices.BufferedBlockDevice.Sync` | libraries/BlockDevices/BufferedBlockDevice.cpp:121-133 | After a successful sync the underlying contents are exactly the presented array, which is unchanged. |
| `BufferedBlockDevices.BufferedBlockDevice.Read` | libraries/BlockDevices/BufferedBlockDevice.cpp:135-194 | Every 64-bit request, on devices of any size: exactly the slice of the presented array, for any alignment and wherever the cached unit lies, if the loop ends and the end does not wrap; it always ends below 2^32 bytes, where a dependable device succeeds exactly on initialized requests in range. Out of range it is refused; whatever happens, the presented array and the rest of the buffer stay. |
| `BufferedBlockDevices.BufferedBlockDevice.Program` | libraries/BlockDevices/BufferedBlockDevice.cpp:196-269 | Byte-granular program, for any address, wrapping ends included, and devices of any size. Where no round starts at or above 2^32 it splices exactly the given bytes and says which unit stays pending and what the device holds under it; failures stay inside the units of the request. Otherwise the rest is rerouted to the address modulo 2^32: stored there, dropped with a stale unit marked as cached, or copied beyond the cache, each under its exact condition on a dependable device. A request out of range of a device below 2^32 bytes is refused if it starts in a unit below 2^32. |
| `BufferedBlockDevices.ProgramWrapsAround` | libraries/BlockDevices/BufferedBlockDevice.cpp:196-269 | Witness by a call: a unit programmed at address 2^32 of a device of 512 bytes overwrites unit 0, and success is reported. |
| `BufferedBlockDevices.BufferedBlockDevice.Erase` | libraries/BlockDevices/BufferedBlockDevice.cpp:271-285 | The range is erased; bytes outside it are unchanged if and only if no differing pending unit starts exactly at the end of the range (the source compares with `<=`). For wrapping requests too it is said which pending unit survives. |
| `BufferedBlockDevices.BufferedBlockDevice.Trim` | libraries/BlockDevices/BufferedBlockDevice.cpp:287-301 | Only pending data of the range is discarded, under the same exact condition. |
| `BufferedBlockDevices.ForgetUnit` | libraries/BlockDevices/BufferedBlockDevice.cpp:280-283 | What dropping or keeping the overlay does to the array when the device changes in a range: both directions of the neighbour condition. |
| `BufferedBlockDevices.NeighbourLost` | libraries/BlockDevices/BufferedBlockDevice.cpp:280-283 | Witness by calls: with 7 pending at address 4, erasing bytes 0 to 3 turns byte 4 back into the device's 0. |
| `BufferedRuns.Perform` | libraries/BlockDevices/BufferedBlockDevice.cpp:135-301 | For every device, with or without an erase value: each of read, program, flush, sync, erase and trim acts on the wrapper as one step of a model of a flat array, the bytes the device holds of it, and a pending marker; erases and trims that discard pending data included. An erase leaves the erase value, or, where the device names none, bytes that are returned. |
| `BufferedRuns.Replay` | libraries/BlockDevices/BufferedBlockDevice.cpp:98-301 | Whole-run refinement, for every device: any script of operations in range, of which no program is rerouted, returns the outputs of that model and leaves its array, device bytes and marker. |
| `SlicingBlockDevices.SlicingBlockDevice.constructor` | libraries/BlockDevices/SlicingBlockDevice.cpp:23-42 | The unsigned arguments are read as signed; a border keeps its magnitude and whether it counts from the end (for the stop also when zero). |
| `SlicingBlockDevices.SlicingBlockDevice.Init` | libraries/BlockDevices/SlicingBlockDevice.cpp:44-70 | Resolves from-end borders against the size of the device, modulo 2^64; on a dependable device it succeeds if and only if both are aligned and the stop is in range, and then the window is usable if and only if they are in order. |
| `SlicingBlockDevices.WindowOfSignedBorders` | libraries/BlockDevices/SlicingBlockDevice.cpp:23-70 | Numbers only, for all signed borders: what init computes and checks amounts to the borders counted from the end where negative, in order and inside the device. |
| `SlicingBlockDevices.Slice` | libraries/BlockDevices/SlicingBlockDevice.cpp:23-70 | From signed constructor arguments to a usable window: on a dependable device constructing and initializing succeeds if and only if the borders named are in order, inside the device and on borders of erase units, and then it is that window. |
| `SlicingBlockDevices.InvertedWindowAccepted` | libraries/BlockDevices/SlicingBlockDevice.cpp:62-69 | Witness: init does not compare the borders and accepts a start above the stop. |
| `SlicingBlockDevices.InvertedWindowExactly` | libraries/BlockDevices/SlicingBlockDevice.cpp:106-119 | Such a window rejects every request whose end, counted on the device, does not wrap; but unless its stop is 0 it admits wrapping ones that reach the device: some non-empty request with a representable forwarded range is admitted if and only if the stop is positive. |
| `SlicingBlockDevices.ForwardedInsideExactly` | libraries/BlockDevices/SlicingBlockDevice.cpp:82-119 | For read, program and erase: an admitted request whose forwarded range is representable stays inside the window if and only if adding the start of the window does not wrap. |
| `SlicingBlockDevices.EveryWindowEscapes` | libraries/BlockDevices/SlicingBlockDevice.cpp:82-119 | The guard is needed for every window that does not start with its device: address 2^64 - start is admitted and reaches byte 0. |
| `SlicingBlockDevices.ProgramOutsideWindow` | libraries/BlockDevices/SlicingBlockDevice.cpp:90-96 | Witness by a call: a byte programmed through the window [8, 16) lands at byte 0 of the device. |
| `SlicingBlockDevices.SlicingBlockDevice.Read` | libraries/BlockDevices/SlicingBlockDevice.cpp:82-88 | Every 64-bit request: if start plus range does not wrap, exactly the slice of the window, and past the stop an error; otherwise the device is read where the wrapped address points. |
| `SlicingBlockDevices.SlicingBlockDevice.Program` | libraries/BlockDevices/SlicingBlockDevice.cpp:90-96 | Every 64-bit request: if start plus range does not wrap, the window and the device are spliced alike and nothing outside the window changes; otherwise the bytes go exactly to the wrapped address. |
| `SlicingBlockDevices.SlicingBlockDevice.Erase` | libraries/BlockDevices/SlicingBlockDevice.cpp:98-104 | Every 64-bit request: if start plus range does not wrap, exactly that part of the window is erased and nothing outside it; otherwise the range at the wrapped address. |
| `SlicingBlockDevices.AlignedInWindow` | libraries/BlockDevices/SlicingBlockDevice.cpp:106-119 | Alignment inside an aligned window is alignment on the device, for all three block sizes. |
| `SlicingBlockDevices.DisjointWindows` | libraries/BlockDevices/SlicingBlockDevice.cpp:82-104 | A change confined to one range is not seen through any window disjoint from it. |
| `ChainingBlockDevices.ChainingBlockDevice.Init` | libraries/BlockDevices/ChainingBlockDevice.cpp:34-97 | Opens every child, whose borders may still be counted from the end, and folds sizes and erase values; on dependable children it succeeds if and only if every child opens, and then the children are usable if and only if their borders are in order; a failure resets the reference count. |
| `ChainingBlockDevices.ChainingBlockDevice.InitChildren` | libraries/BlockDevices/ChainingBlockDevice.cpp:53-88 | The loop of init: opens the children up to the first that fails, with the folds and the sum of the sizes (modulo 2^64) of those opened. |
| `ChainingBlockDevices.FoldedSizeFits` | libraries/BlockDevices/ChainingBlockDevice.cpp:59-79 | The folded size is a multiple of every child's size if and only if some child's size is. |
| `ChainingBlockDevices.FoldedSizeGrows` | libraries/BlockDevices/ChainingBlockDevice.cpp:59-79 | One more child replaces the folded size if and only if its own is a multiple of it. |
| `ChainingBlockDevices.FoldedSizeMisfit` | libraries/BlockDevices/ChainingBlockDevice.cpp:59-64 | Witness: sizes 4 and 6 fold to 4. |
| `ChainingBlockDevices.FoldedValueShared` | libraries/BlockDevices/ChainingBlockDevice.cpp:80-85 | The folded erase value is the common value of the children; a value other than -1 is shared by all. |
| `ChainedSlices.UsableExactly` | libraries/BlockDevices/ChainingBlockDevice.cpp:34-97 | What init leaves behind is a usable chain if and only if, for each kind of block, some child's size is a multiple of all others and every child holds whole blocks of the folded sizes (the source only logs this). |
| `ChainingBlockDevices.ChainingBlockDevice.Read` | libraries/BlockDevices/ChainingBlockDevice.cpp:138-174 | Every 64-bit request and any number of children: a success is admitted, and is exactly the slice of the concatenation if the end does not wrap; on dependable children success exactly on admitted requests, except those that start inside and wrap; an admitted request from beyond the last child whose end wraps succeeds and reads nothing; the rest of the buffer stays. |
| `ChainingBlockDevices.ChainingBlockDevice.Program` | libraries/BlockDevices/ChainingBlockDevice.cpp:176-212 | Every 64-bit request: exactly a write into the concatenation if the end does not wrap, and a failure stays inside the request; on dependable children success exactly on admitted requests, except those that start inside and wrap, of which only the sizes are said to stay; an admitted request from beyond the last child whose end wraps succeeds and stores nothing. |
| `ChainingBlockDevices.ChainingBlockDevice.ReadRound` | libraries/BlockDevices/ChainingBlockDevice.cpp:154-171 | One round: the child gets an aligned request inside itself, and the rest starts at the next child. |
| `ChainingBlockDevices.ChainingBlockDevice.ProgramRound` | libraries/BlockDevices/ChainingBlockDevice.cpp:192-209 | The same for programming, with the wrapped address passed on. |
| `ChainingBlockDevices.OneViewChanged` | libraries/BlockDevices/ChainingBlockDevice.cpp:192-209 | A write to one child changes that child's stretch of the concatenation and nothing else, also when children share a device. |
| `ChainingBlockDevices.ChainingBlockDevice.GetEraseSize` | libraries/BlockDevices/ChainingBlockDevice.cpp:264-282 | The erase size of the child that holds the address; zero exactly past the end. |
| `ChainingBlockDevices.ChainingBlockDevice.Erase` | libraries/BlockDevices/ChainingBlockDevice.cpp:214-247 | Every 64-bit request: erases exactly the range although children may have different erase sizes, and is refused exactly when an end does not lie on a border of the erase unit there; undefined exactly when the check asks for an erase size beyond the last child, by which it divides; one that starts inside and wraps keeps the chain usable and all sizes. |
| `ChainingBlockDevices.EraseCheck` | libraries/BlockDevices/ChainingBlockDevice.cpp:216-222 | The check with two looked-up erase sizes is alignment at both ends. |
| `ChainingBlockDevices.EraseShare` | libraries/BlockDevices/ChainingBlockDevice.cpp:224-244 | Every share passed to a child is a valid erase of that child. |
| `ChainedSlices.TiledChainIsDevice` | libraries/BlockDevices/ChainingBlockDevice.cpp:138-247 | Slicing and chaining cancel: a chain of adjacent slices that tile a device presents exactly its bytes. |
| `ChainedSlices.TiledSizes` | libraries/BlockDevices/ChainingBlockDevice.cpp:53-88 | Its block sizes and erase value are those of the device. |
| `ChainedSlices.TiledUsable` | libraries/BlockDevices/ChainingBlockDevice.cpp:34-97 | Such a chain is always usable after init: the sizes fit whatever the cuts. |
| `ChainedSlices.CutAndChain` | libraries/BlockDevices/ChainingBlockDevice.cpp:34-97 | A usable chain from end to end: cutting a dependable device in two and chaining the pieces, the second still counted from the end, succeeds if and only if the cut is on a border of an erase unit, and the chain then presents the device. |
| `ChainedSlices.TiledRead` | libraries/BlockDevices/ChainingBlockDevice.cpp:138-174 | Every 64-bit request: such a chain reads as the device does, the same bytes, and success exactly on the requests the device admits; only of those that start inside and wrap no more is said than where the buffer stays. |
| `ChainedSlices.TiledProgram` | libraries/BlockDevices/ChainingBlockDevice.cpp:176-212 | Every 64-bit request: such a chain programs as the device does, with success exactly on the requests the device admits, and stays such a chain; of those that start inside and wrap only the latter is said. |
| `ChainedSlices.TiledErase` | libraries/BlockDevices/ChainingBlockDevice.cpp:214-247 | Every 64-bit request: such a chain erases as the device does, and succeeds exactly on the requests the device admits, except where its check divides by zero, which is said exactly; wrapping ones keep it such a chain. |
| `ChainedSlices.TiledBorders` | libraries/BlockDevices/ChainingBlockDevice.cpp:214-222 | The chain's erase check, which asks child by child, is the check of the device. |
| `UsbMassStorage.USBMSD.AllocateMsdBuffer` | libraries/UsbMsd/UsbMsd.cpp:95-113 | The shared buffer has exactly the block size of the unit addressed, kept or newly allocated. |
| `UsbMassStorage.USBMSD.Read` | libraries/UsbMsd/UsbMsd.cpp:118-170 | Any lba, offset and length in range: exactly the slice that starts `offset` bytes behind the start of block `lba`, and the requested length is returned. |
| `UsbMassStorage.USBMSD.Write` | libraries/UsbMsd/UsbMsd.cpp:178-242 | Unaligned read-modify-write: a write that is done splices exactly the given bytes although whole blocks are erased; any other leaves every block outside the request alone, and is reported as negative if and only if the unit was not opened (or does not exist) or the device's failure code is negative. With a negative code and lengths below 2^31 a result that is not negative means done; a write-protected device answers 4002 and stores nothing. |
| `UsbMassStorage.BlockAndOffset` | libraries/UsbMsd/UsbMsd.cpp:129-131 | The address lies in block `lba` of the device at that offset, or for larger offsets in one of the blocks behind it. |
| `UsbMassStorage.ProtectedReportsLength` | libraries/UsbMsd/UsbMsd.cpp:226-241 | Witness by a call: one byte written to a read-only device is answered with a length of 4002 bytes. |
| `UsbMassStorage.USBMSD.WriteBlock` | libraries/UsbMsd/UsbMsd.cpp:217-233 | One round keeps every byte of the block that is not written, although the erase result is ignored. |
| `UsbMassStorage.RewriteBlock` | libraries/UsbMsd/UsbMsd.cpp:217-228 | Reading a block, editing the copy, losing the block and writing the copy edits the array in place. |
| `UsbMassStorage.ReturnedSizeExact` | libraries/UsbMsd/UsbMsd.cpp:161-163 | The length, returned as a signed 32-bit number of the same bits, is unchanged exactly below 2^31, and looks like an error from there on. |
| `UsbMassStorage.HostAddressExactly` | libraries/UsbMsd/UsbMsd.cpp:89-93 | The host is told 16 bits of the erase size, but read and write address by all of it: both find a block at the same place if and only if the erase size is below 2^16 or the block is the first. |
| `UsbMassStorage.NoBlockSize` | libraries/UsbMsd/UsbMsd.cpp:89-93 | Witness: with erase blocks of 64 KiB the host is told blocks of no bytes. |
| `FlashSimBlockDevices.BlankBufFits` | libraries/BlockDevices/FlashSimBlockDevice.cpp:27-58 | The scratch buffer is a positive whole number of program units for every 32-bit program size. |
| `FlashSimBlockDevices.FlashSimBlockDevice.Init` | libraries/BlockDevices/FlashSimBlockDevice.cpp:45-72 | A failed init resets the reference count, so that a later one tries again. |
| `FlashSimBlockDevices.FlashSimBlockDevice.Program` | libraries/BlockDevices/FlashSimBlockDevice.cpp:153-186 | For requests whose end does not wrap: succeeds exactly when every target byte is blank or already equal, and then stores all of them; when refused it changes nothing; no byte that was not blank ever changes. Wrapping ones go where their wrapped addresses point. |
| `FlashSimBlockDevices.FlashSimBlockDevice.CheckBlank` | libraries/BlockDevices/FlashSimBlockDevice.cpp:163-183 | The chunked comparison decides exactly that condition. |
| `FlashSimBlockDevices.FlashSimBlockDevice.Erase` | libraries/BlockDevices/FlashSimBlockDevice.cpp:188-214 | For requests whose end does not wrap: a successful erase makes exactly the range blank through valid programs; any failure leaves each byte of the range kept or blank. Wrapping ones go where their wrapped addresses point. |
| `FlashSimBlockDevices.WriteKeepsDiscipline` | libraries/BlockDevices/FlashSimBlockDevice.cpp:163-185 | An admitted write, finished or torn, changes only blank bytes. |
| `FlashSimBlockDevices.OneValueBetweenErases` | libraries/BlockDevices/FlashSimBlockDevice.cpp:153-214 | Over every trace, successful or not: between two erases covering a byte it goes from blank to at most one other value and then stays. |
| `FlashSimBlockDevices.Replay` | libraries/BlockDevices/FlashSimBlockDevice.cpp:153-214 | Every run of calls of program and erase, on a device that may fail any of them, is such a trace; so every byte that no erase of the run covers is what it was, or was blank. |
| `ExhaustibleBlockDevices.ExhaustibleBlockDevice.Init` | libraries/BlockDevices/ExhaustibleBlockDevice.cpp:32-61 | The counters are allotted once, with the full budget, and survive deinit and init. |
| `ExhaustibleBlockDevices.ExhaustibleBlockDevice.Program` | libraries/BlockDevices/ExhaustibleBlockDevice.cpp:99-114 | The unit of the first byte decides: with counter 0 nothing changes and success is reported, for wrapping requests too; otherwise the bytes are spliced. A failure changes nothing outside the range. Undefined exactly for admitted requests that do not start inside the device; other wrapping ones are passed on. |
| `ExhaustibleBlockDevices.ExhaustibleBlockDevice.Erase` | libraries/BlockDevices/ExhaustibleBlockDevice.cpp:116-145 | Every unit of the range loses one cycle; exactly those with more than one left are erased. A failure got to some unit, which used up its cycle without being erased, and those before it; bytes outside the range never change. Undefined only for admitted requests whose end wraps, and on a dependable device exactly for those; a failing one may end such a request with an error, of which the same is said. |
| `ExhaustibleBlockDevices.ExactWear` | libraries/BlockDevices/ExhaustibleBlockDevice.cpp:126-144 | Over every sequence of erase requests with budget C, a unit covered n times has counter max(C-n, 0) and was physically erased min(n, max(C-1, 0)) times. |
| `ExhaustibleBlockDevices.Replay` | libraries/BlockDevices/ExhaustibleBlockDevice.cpp:32-145 | Over every run of calls of init, deinit, program and erase on a dependable device, these are the counters and the erases of the device, where n counts the erases made while initialized and admitted. |
| `ExhaustibleBlockDevices.LastEraseDoesNothing` | libraries/BlockDevices/ExhaustibleBlockDevice.cpp:133-141 | The request that uses up the last cycle no longer reaches the device. |
| `ExhaustibleBlockDevices.ExhaustedUnitWritten` | libraries/BlockDevices/ExhaustibleBlockDevice.cpp:109-113 | Witness: a request that starts in the unit before it still writes an exhausted unit. |
| `ExhaustibleBlockDevices.ExhaustedKeptExactly` | libraries/BlockDevices/ExhaustibleBlockDevice.cpp:99-114 | For every successful program: the bytes of all exhausted units are kept if and only if the unit of the first byte is exhausted, or no exhausted unit is given a differing byte. |
| `ExhaustibleBlockDevices.AlwaysKeptExactly` | libraries/BlockDevices/ExhaustibleBlockDevice.cpp:99-114 | The test a caller can make on the counters: they are kept whatever the bytes if and only if the counter of the first unit is 0, or none in the range is. |
| `HeapBlockDevices.HeapBlockDevice.Read` | libraries/BlockDevices/HeapBlockDevice.cpp:118-145 | Reads exactly the slice of a flat array in which blocks that do not exist are zero; succeeds exactly on admitted requests; undefined exactly for the admitted ones whose end wraps. |
| `HeapBlockDevices.HeapBlockDevice.Program` | libraries/BlockDevices/HeapBlockDevice.cpp:147-177 | Programmed bytes are stored, every byte of a block that existed before is kept, and only the rest of newly allocated blocks is unspecified; undefined exactly for admitted requests whose end wraps. |
| `HeapBlockDevices.HeapBlockDevice.Erase` | libraries/BlockDevices/HeapBlockDevice.cpp:179-195 | Exactly the blocks of the range are given back and read as zero; undefined exactly for admitted requests whose end wraps. |
| `HeapBlockDevices.ProgrammedMore` | libraries/BlockDevices/HeapBlockDevice.cpp:157-174 | Programming a request part by part, allocating on the way, programs the request. |
| `HeapBlockDevices.AbsentBlocksReadZero` | libraries/BlockDevices/HeapBlockDevice.cpp:118-195 | Over every run of steps, bytes of blocks never allocated, or erased since, read as zero. |
| `HeapBlockDevices.ProgrammedReadsBack` | libraries/BlockDevices/HeapBlockDevice.cpp:118-195 | Over every run of steps, a programmed byte reads back until it is written again or erased. |
| `HeapBlockDevices.Replay` | libraries/BlockDevices/HeapBlockDevice.cpp:118-195 | Every run of calls of program and erase on an initialized device is such a run of its states, from the state it started in to the one it ends in; the calls that fail the check are no steps. |
| `VirtualEEPROM.VEeprom.ReadByte` | libraries/BlockDevices/virtualEEPROM.cpp:57-62 | The byte that flash holds; for an index outside flash, which is not refused, the result is whatever the variable held. |
| `VirtualEEPROM.VEeprom.ReadBlock` | libraries/BlockDevices/virtualEEPROM.cpp:170-193 | Any index: loads the block of the address, if it lies in flash, where no page is held; otherwise only the address moves, and the page stays true if that is the same block. |
| `VirtualEEPROM.VEeprom.WriteByte` | libraries/BlockDevices/virtualEEPROM.cpp:68-86 | Edits the page in place and keeps the two flags truthful. |
| `VirtualEEPROM.VEeprom.Write` | libraries/BlockDevices/virtualEEPROM.cpp:119-156 | From a true page the block ends equal to the page whether or not the erase was skipped, every other block unchanged; without an erase only blank bytes change, without a program nothing does. |
| `VirtualEEPROM.ProgramEffect` | libraries/BlockDevices/virtualEEPROM.cpp:119-156 | Why skipping the erase is sound: a block that is blank wherever it differs becomes the page. |
| `VirtualEEPROM.MisplacedPage` | libraries/BlockDevices/virtualEEPROM.cpp:170-193 | For all addresses and values: editing a byte, then loading the block of a second address and writing stores the edit, and nothing else, if and only if both addresses lie in one block (or the edit changed nothing); otherwise, if the byte was not blank, the edited page replaces the second block. |
| `VirtualEEPROM.Assign` | libraries/EEPROM/src/EEPROM.h:49-58 | Assigning one byte at any index: written through if no page was being edited, so that on dependable flash exactly that byte changes; otherwise only the page is edited, and stays true if it is the page of that byte. Outside flash nothing is stored. |
| `VirtualEEPROM.Update` | libraries/EEPROM/src/EEPROM.h:70 | At any index: does nothing if flash (not the page) already holds the value, and otherwise is the assignment; outside flash nothing is stored. |
| `VirtualEEPROM.Put` | libraries/EEPROM/src/EEPROM.h:148-172 | An object over any number of blocks: on dependable flash exactly those of its bytes change that lie in flash, the rest is dropped; while a page is being edited nothing is stored, and that page's address moves to the block of the object. |
| `Bytes.LeRoundTrip` | libraries/BlockDevices/MBRBlockDevice.cpp:49-67 | The stored bytes of a word are its digits to the base 256, least significant first, and give the word back. |
| `Bytes.LeRoundTripBytes` | libraries/BlockDevices/MBRBlockDevice.cpp:49-67 | And four bytes are the stored bytes of the word they give. |
| `MBRBlockDevices.ChsKeepsSector` | libraries/BlockDevices/MBRBlockDevice.cpp:69-75 | The packing keeps min(lba, 0xfffffd) + 1 without losing a bit: each of its 24 bits is in the place that the record assigns to it. |
| `MBRBlockDevices.NewTableReadsBack` | libraries/BlockDevices/MBRBlockDevice.cpp:102-152 | The entry written reads back; the other three are kept if the table was valid, and are empty otherwise. |
| `MBRBlockDevices.NewTableOnRecord` | libraries/BlockDevices/MBRBlockDevice.cpp:102-143 | The record byte by byte: signature, an inactive entry of the type, both ends as clamped sector numbers, start and size in 32 bits little-endian; all other entries as they were, or zero. |
| `MBRBlockDevices.TableKeptExactly` | libraries/BlockDevices/MBRBlockDevice.cpp:105-125 | The old table is taken over if and only if it has the signature and each of its entries is inactive or active. |
| `MBRBlockDevices.AcceptedOnRecord` | libraries/BlockDevices/MBRBlockDevice.cpp:289-321 | Byte by byte what init accepts (signature, inactive or active, none of three types), and where it finds type, start and size. |
| `MBRBlockDevices.OverlapTestExact` | libraries/BlockDevices/MBRBlockDevice.cpp:141-152 | The overlap assert is true exactly for partitions without a common sector, when no end wraps. |
| `MBRBlockDevices.OverlapTestWraps` | libraries/BlockDevices/MBRBlockDevice.cpp:141-152 | Witness: with an end that wraps it accepts overlapping partitions. |
| `MBRBlockDevices.NewTableDisjoint` | libraries/BlockDevices/MBRBlockDevice.cpp:124-152 | If the asserts hold and no end wraps, the non-empty entries stay pairwise disjoint. |
| `MBRBlockDevices.AdmissibleExactly` | libraries/BlockDevices/MBRBlockDevice.cpp:84-95 | A record that can be written ends at byte 512 if and only if the program size divides 512; otherwise it ends at 2^32 + 512. |
| `MBRBlockDevices.WritableExactly` | libraries/BlockDevices/MBRBlockDevice.cpp:84-95 | It can be written exactly for program sizes that divide 512, or, above 512, that divide 2^32 + 512, on a device that reaches that far. |
| `MBRBlockDevices.RecordElsewhere` | libraries/BlockDevices/MBRBlockDevice.cpp:84-95 | Witness: program size 1536 on any device of 2^32 + 512 bytes or more. |
| `MBRBlockDevices.PartitionAbsolute` | libraries/BlockDevices/MBRBlockDevice.cpp:80-178 | For every device, offset and size: a success means that the record can be written, and on a dependable device it succeeds exactly then; the table is in the last 66 bytes before the end of the record, with the new entry, the rest of its program unit and of erase block 0 is lost, and everything else is kept. Where the record can be read but not written, erase block 0 is erased all the same. |
| `MBRBlockDevices.PartitionedPlainly` | libraries/BlockDevices/MBRBlockDevice.cpp:97-170 | For program sizes that divide 512 the table is in bytes 446 to 511, in the rest of its buffer before it are bytes 255, and nothing else outside erase block 0 changes. |
| `MBRBlockDevices.UpdateTable` | libraries/BlockDevices/MBRBlockDevice.cpp:102-139 | The buffer holds the old table, or an empty one if that was not valid, with the new entry. |
| `MBRBlockDevices.InitReadableExactly` | libraries/BlockDevices/MBRBlockDevice.cpp:271-279 | init can read a record exactly for read sizes 1, 2 and the divisors of 512 above 66, and, above 512, for divisors of 2^32 + 512 on a device that reaches that far. |
| `MBRBlockDevices.RecordNotReadable` | libraries/BlockDevices/MBRBlockDevice.cpp:271-279 | Witness: with read size 4 a record can be written but never read back by init. |
| `MBRBlockDevices.MBRBlockDevice.Init` | libraries/BlockDevices/MBRBlockDevice.cpp:250-342 | For every device: a first init succeeds exactly on a readable, accepted entry whose window is a valid erase range, and takes offset, size and type from it. |
| `MBRBlockDevices.RoundTrip` | libraries/BlockDevices/MBRBlockDevice.cpp:80-342 | For every device, failing ones included, offset and size: if a partition was written, init on the same entry, where it reads the record at the place it was written to and succeeds, recovers the type and a whole number of sectors each for offset and size; on a dependable device it does so exactly for accepted entries, and it fails where it reads elsewhere. Offset and size come back rounded down to sectors if and only if their number of sectors has 32 bits. |
| `MBRBlockDevices.ExtentOfSectors` | libraries/BlockDevices/MBRBlockDevice.cpp:127-132 | That rounding as an if and only if, for every length and erase size. |
| `MBRBlockDevices.SectorsOnRecord` | libraries/BlockDevices/MBRBlockDevice.cpp:131-133 | A length is recorded in sectors, modulo 2^32, and a sector is an erase block, or 512 bytes if those are smaller. |
| `MBRBlockDevices.OffsetLost` | libraries/BlockDevices/MBRBlockDevice.cpp:127-132 | Witness: with sectors of 512 bytes, offset 2^41 comes back as 0. |
| `MBRBlockDevices.PartitionNotFound` | libraries/BlockDevices/MBRBlockDevice.cpp:80-342 | Witness by calls: with program size 1536 a partition is written with success and init finds nothing. |
| `MBRBlockDevices.RoundedWindowValid` | libraries/BlockDevices/MBRBlockDevice.cpp:313-331 | The rounded-down window is valid whenever erase blocks are at least 512 bytes or divide 512. |
| `MBRBlockDevices.MBRBlockDevice.Read` | libraries/BlockDevices/MBRBlockDevice.cpp:369-380 | Every 64-bit request: exactly the slice of the partition if its end does not wrap; otherwise the device is read where the wrapped address points. |
| `MBRBlockDevices.MBRBlockDevice.Program` | libraries/BlockDevices/MBRBlockDevice.cpp:382-393 | Every 64-bit request: splices the partition and changes nothing outside it if its end does not wrap; otherwise the bytes go exactly to the wrapped address. |
| `MBRBlockDevices.MBRBlockDevice.Erase` | libraries/BlockDevices/MBRBlockDevice.cpp:395-406 | Every 64-bit request: erases inside the partition only if its end does not wrap; otherwise at the wrapped address. |
| `MBRBlockDevices.PartitionInsideExactly` | libraries/BlockDevices/MBRBlockDevice.cpp:369-406 | An admitted request whose forwarded range is representable stays inside the partition if and only if its own end does not wrap. |
| `MBRBlockDevices.PartitionEscapes` | libraries/BlockDevices/MBRBlockDevice.cpp:369-406 | A partition behind the start of its device can be left by an admitted request with a representable forwarded range if and only if the program size divides 2^64; then the last program unit before address 2^64 is admitted and goes to the unit before the partition. |
| `MBRBlockDevices.ProgramBeside` | libraries/BlockDevices/MBRBlockDevice.cpp:382-393 | Programming through one partition, with a representable end, is never seen through another that shares no byte with it. |
| `MBRBlockDevices.EraseBeside` | libraries/BlockDevices/MBRBlockDevice.cpp:395-406 | The same for erasing. |
| `MBRBlockDevices.DisjointWindowsOfEntries` | libraries/BlockDevices/MBRBlockDevice.cpp:313-321 | Disjoint entries are disjoint windows on the device. |
| `MBRBlockDevices.InitBeside` | libraries/BlockDevices/MBRBlockDevice.cpp:250-342 | Two partitions initialized by calls from one table with disjoint entries, neither of them empty, share no byte; on a dependable device with a readable record both inits succeed exactly if both entries are accepted and valid erase ranges. |
| `MBRBlockDevices.StartTakenFromEnd` | libraries/BlockDevices/MBRBlockDevice.cpp:180-208 | A start alone is always taken from the end: as documented exactly for negative starts that leave 512 bytes on both sides, or where counting from either end meets; starts in the first 512 bytes included. |
| `MBRBlockDevices.SignsDropped` | libraries/BlockDevices/MBRBlockDevice.cpp:210-242 | Of a start and a stop the signs are dropped: as documented exactly for positive ones, or where an address and its magnitude meet, with the case of each start near an end. |
| `MBRBlockDevices.PartitionFromStart` | libraries/BlockDevices/MBRBlockDevice.cpp:180-208 | The partition written for a start alone. |
| `MBRBlockDevices.PartitionFromStartStop` | libraries/BlockDevices/MBRBlockDevice.cpp:210-242 | The partition written for a start and a stop. |
| `Time.Agt.CountDown` | cores/arduino/time.cpp:35-41 | The hardware: the counter reloads on underflow and the flag goes up. |
| `Time.Agt.TimerMicrosCallback` | cores/arduino/time.cpp:23-25 | The interrupt counts one underflow, however many there were. |
| `Time.Agt.Elapse` | cores/arduino/time.cpp:23-25 | Any interleaving of counter clocks and chances for the interrupt is a run of the abstract clock. |
| `Time.RunNow` | cores/arduino/time.cpp:23-25 | Time advances by the clocks of the schedule; masked, the count of the software stands still. |
| `Time.NothingLost` | cores/arduino/time.cpp:23-25 | Over every run in which the interrupt gets a chance at least once a period, every underflow is counted and at most one waits. |
| `Time.Agt.Millis` | cores/arduino/time.cpp:47-54 | The number of counted underflows modulo 2^32. |
| `Time.Agt.Micros` | cores/arduino/time.cpp:56-71 | For every interleaving, without a bound on the underflows not yet counted: the result is the true number of microseconds at the instant the counter is read, less a thousand for each underflow by which the count lags behind the correction, modulo 2^32; so it is exact if and only if the correction equals the lag modulo 2^29; below 2^29 uncounted underflows, if and only if it equals the lag. |
| `Time.ExactExactly` | cores/arduino/time.cpp:60-67 | With nothing lost, that is the case exactly if at most one underflow waits, it is less than half a period old, and none follows before the flag is read while the counter is in its first half. |
| `Time.ExactUnderGuards` | cores/arduino/time.cpp:56-67 | For every interleaving, guards a caller can meet suffice: read within half a period of the waiting underflow (or of the call), flag read at most half a period later. |
| `Time.ExactOverRuns` | cores/arduino/time.cpp:23-71 | Over every run from the start in which the interrupt gets a chance at least once a period, followed by a call under those guards with any interleaving, micros is exact. |
| `Time.LateReadIsShort` | cores/arduino/time.cpp:62-66 | Witness at the bound, for every period: half a period after the underflow the result is a millisecond short. |
| `Time.LongGapIsOver` | cores/arduino/time.cpp:62-66 | Witness at the bound: with a longer gap a later underflow is taken for an earlier one. |
| `Time.MicrosParts` | cores/arduino/time.cpp:69-70 | The 32-bit products do not overflow for a 16-bit period, and the parts add up to the rounded-down total. |
| `Time.ElapsedExact` | cores/arduino/time.cpp:56-71 | Two exact results never go backwards: their 32-bit difference is the true time between them. |
| `Time.Agt.Delay` | cores/arduino/time.cpp:7-11 | Returns at the first look at which the 32-bit difference reaches the time asked for. |
| `Time.DelayIsLongEnough` | cores/arduino/time.cpp:7-11 | It never returns early, also across the wrap of the counter: at least that many underflows, and more than ms - 1 whole periods, have passed. |
| `Spi.Transfer` | libraries/SPI/SPI.cpp:222-296 | For every count and every schedule of the ready flags: frames go out in the order of the original bytes, at most two ahead of those stored, the transmit buffer is never overwritten, and nothing is replaced before it has gone out; at the end the unit is idle. If no two frames complete within two consecutive looks, never more than one received frame waits, so that a receiver of one frame suffices. |
| `Spi.TwoBetweenLooks` | libraries/SPI/SPI.cpp:256-271 | Witness: with two frames between two looks a receiver of one frame is overrun. |
| `Spi.FillPipe` | libraries/SPI/SPI.cpp:256-261 | Two words go out first, as far as there are that many. |
| `Spi.Pump` | libraries/SPI/SPI.cpp:263-271 | One word in, the next out: although the transmit flag is not looked at, the transmit buffer is empty. |
| `Spi.Drain` | libraries/SPI/SPI.cpp:273-279 | The last words are taken in. |
| `Spi.Tail` | libraries/SPI/SPI.cpp:287-294 | The remaining bytes, one at a time. |
| `Spi.StoreMore` | libraries/SPI/SPI.cpp:268-278 | Storing a frame keeps all bytes that have yet to go out. |
| `Spi.FinishedExchange` | libraries/SPI/SPI.cpp:244-294 | A finished exchange sent the words of the original buffer in order, of four bytes each, the first the least significant, and then its remaining bytes; it left in the buffer exactly the received words and bytes, in order; bytes past the count are untouched. |
| `Newlines.ExpandAppend` | libraries/Storage/storage_retarget.cpp:547-586 | The expansion of a text may be done in pieces when the byte before each piece is remembered. |
| `Newlines.ExpandStep` | libraries/Storage/storage_retarget.cpp:552-582 | One more byte of text puts itself on the wire, with a byte 13 before it if and only if it is 10 and does not follow 13. |
| `Newlines.ExpandLast` | libraries/Storage/storage_retarget.cpp:595-597 | The wire ends with the byte the text ends with. |
| `Newlines.ExpandHasNoBare` | libraries/Storage/storage_retarget.cpp:554-582 | On the wire every line feed (10) follows a carriage return (13). |
| `Newlines.ExpandPrefix` | libraries/Storage/storage_retarget.cpp:554-586 | The expansion of a part is a prefix of the expansion of the whole. |
| `StorageRetarget.Descriptor.Write` | libraries/Storage/storage_retarget.cpp:544-612 | For every pattern of short writes and failures of the handle, the bytes put on the wire are a prefix of the expansion; on return the count, the wire and the saved byte are exactly those of a stop of the scan, and after an error the wire is that of a stop and the saved byte is the last one sent; a dependable handle with room takes everything. |
| `StorageRetarget.Descriptor.Insert` | libraries/Storage/storage_retarget.cpp:555-582 | Around a bare line feed: every way the flush or the carriage return may fall short is accounted for. |
| `StorageRetarget.Descriptor.Finish` | libraries/Storage/storage_retarget.cpp:588-598 | The same for the last part. |
| `StorageRetarget.FailedResumes` | libraries/Storage/storage_retarget.cpp:547-598 | So after an error, unlike after a short count, writing the rest of the text always completes the expansion. |
| `StorageRetarget.SegmentSent` | libraries/Storage/storage_retarget.cpp:555-582 | Text between two inserted carriage returns goes out unchanged. |
| `StorageRetarget.Descriptor.WriteAll` | libraries/Storage/storage_retarget.cpp:544-598 | Splitting a text over any sequence of calls that each accept all they are given puts the same bytes on the wire as one call; a dependable handle with room for a byte accepts them all, if none is longer than SSIZE_MAX. |
| `Newlines.ResumesExactly` | libraries/Storage/storage_retarget.cpp:547-598 | After a short write, writing the rest completes the expansion if and only if the next byte is no line feed or the saved byte and the last byte sent agree on being a carriage return. |
| `Newlines.ResumesAtExactly` | libraries/Storage/storage_retarget.cpp:547-598 | With what is left saved, resuming at a given stop is right if and only if a condition on the text around the stop holds: for each stop, with the carriage return out or not. |
| `Newlines.AlwaysResumesExactly` | libraries/Storage/storage_retarget.cpp:547-598 | A text can be resumed from every possible stop if and only if no line feed after its first byte is bare. |
| `Newlines.DuplicatesReturn` | libraries/Storage/storage_retarget.cpp:588-597 | The failing family: the last bare line feed is held back after its carriage return went out. |
| `StorageRetarget.ReturnSentTwice` | libraries/Storage/storage_retarget.cpp:544-598 | Witness for every such text: the resumed write sends that carriage return twice. |
| `Newlines.StopIsUnique` | libraries/Storage/storage_retarget.cpp:547-598 | The number of bytes on the wire determines where a write stopped. |
| `StorageRetarget.Descriptor.Read` | libraries/Storage/storage_retarget.cpp:668-713 | One call delivers the first byte of the collapsed stream and leaves the rest of it; at the end of the input it returns 0. |
| `StorageRetarget.Descriptor.ReadAll` | libraries/Storage/storage_retarget.cpp:685-710 | Reading to the end gives the collapsed stream. |
| `Newlines.CollapseStep` | libraries/Storage/storage_retarget.cpp:695-708 | A newline character (13 or 10) is dropped exactly if the opposite one precedes it; the others come out as one line feed each. |
| `Newlines.CollapseAppend` | libraries/Storage/storage_retarget.cpp:685-710 | Collapsing needs no more than the previous byte. |
| `Newlines.CollapseExpand` | libraries/Storage/storage_retarget.cpp:547-710 | Text without a carriage return comes back with its runs of line feeds shrunk to one. |
| `Newlines.RoundTripExactly` | libraries/Storage/storage_retarget.cpp:547-710 | Text comes back as written if and only if it has no carriage return and no two adjacent line feeds. |
| `StorageRetarget.Echo` | libraries/Storage/storage_retarget.cpp:544-713 | The round trip through the two calls from a fresh descriptor: exactly that. |
| `Descriptors.DescriptorTable.ReserveFilehandle` | libraries/Storage/storage_retarget.cpp:301-322 | The least free descriptor from 3 on, or EMFILE exactly when there is none. |
| `Descriptors.DescriptorTable.BindToFd` | libraries/Storage/storage_retarget.cpp:325-337 | Binds a free descriptor and forgets what went before on it. |
| `Descriptors.DescriptorTable.UnbindFromFd` | libraries/Storage/storage_retarget.cpp:339-348 | Releases the descriptor exactly if it is bound to that handle. |
| `Descriptors.DescriptorTable.FileHandleOf` | libraries/Storage/storage_retarget.cpp:219-233 | Standard descriptors are bound to the console at first use; others are looked up. |
| `Descriptors.DescriptorTable.Close` | libraries/Storage/storage_retarget.cpp:495-511 | The descriptor is released whatever the close of the handle answers; an unbound one is an error; undefined exactly for numbers outside the table. |
| `Descriptors.DescriptorTable.HandleOpenErrors` | libraries/Storage/storage_retarget.cpp:245-251 | A failed open releases its slot. |
| `Descriptors.DescriptorTable.RemoveFilehandle` | libraries/Storage/storage_retarget.cpp:112-124 | Exactly the descriptors of that object are released. |
| `Descriptors.ReleasedBetween` | libraries/Storage/storage_retarget.cpp:301-511 | Over every run: between two times a descriptor is handed out it was released. |
| `FileRegistry.Registry.Open` | libraries/Storage/storage_retarget.cpp:447-486 | The least free descriptor, bound to the object named by the path or to what its file system opened; on every error the table is as before. |
| `FileRegistry.Registry.BindToFd` | libraries/Storage/storage_retarget.cpp:325-337 | Keeps every descriptor on a live object. |
| `FileRegistry.Registry.Close` | libraries/Storage/storage_retarget.cpp:495-511 | Keeps every descriptor on a live object, for every number inside the table. |
| `FileRegistry.Registry.FileHandleOf` | libraries/Storage/storage_retarget.cpp:219-233 | A handle found behind a descriptor is never that of a destroyed file-like object, after any run: every operation of the registry and the table keeps `Valid`. |
| `FileRegistry.ParsePath` | libraries/Storage/FilePath.cpp:21-46 | Splits a path into the object name between the first slashes and the rest. |
| `FileRegistry.PathsParse` | libraries/Storage/FilePath.cpp:21-46 | A path of slashes, a name, and perhaps a slash and a rest has exactly these parts, whatever the number of slashes in front, and whatever the rest. |
| `FileRegistry.ParsedOnce` | libraries/Storage/FilePath.cpp:21-46 | The two parts are determined by the path. |
| `FileRegistry.Registry.Construct` | libraries/Storage/FileBase.cpp:29-42 | A named object becomes the head of the list, which is the live named objects, newest first; an unnamed one is not listed. |
| `FileRegistry.Registry.Destroy` | libraries/Storage/FileBase.cpp:44-70 | The list loses exactly that object and keeps its order; no link, default pointer or descriptor refers to it any more. |
| `FileRegistry.Registry.Before` | libraries/Storage/FileBase.cpp:54-57 | The search for the predecessor ends at it. |
| `FileRegistry.LinksWithout` | libraries/Storage/FileBase.cpp:50-59 | Relinking one predecessor links the list without the object. |
| `FileRegistry.Registry.SetAsDefault` | libraries/Storage/FileBase.cpp:72-77 | A live object becomes the default. |
| `FileRegistry.Registry.Lookup` | libraries/Storage/FileBase.cpp:79-97 | The first in the list, newest first, that has that name; the default for the name "default" if none has it; else none. |
| `FileRegistry.ConstructedFound` | libraries/Storage/FileBase.cpp:29-97 | By calls: a new object is found by its name at once, whatever had that name, and what any other name stands for stays. |
| `FileRegistry.Registry.Get` | libraries/Storage/FileBase.cpp:99-115 | The n-th newest object, or none. |
| `Itoa.DigitsEvaluate` | cores/arduino/itoa.c:105-113 | For every value and radix 2 to 36 the digits evaluate back to it, without a leading zero. |
| `Itoa.DigitsInOrder` | cores/arduino/itoa.c:65-68 | The digits are '0' to '9' and then 'a' to 'z', in this order. |
| `Itoa.DigitStep` | cores/arduino/itoa.c:61-69 | The last digit is the remainder by the radix, and those before it are the digits of the quotient, if that is not zero. |
| `Itoa.ValuePrintsBack` | cores/arduino/itoa.c:105-113 | Every numeral without leading zeros is the one printed for its value. |
| `Itoa.ScratchSuffices` | cores/arduino/itoa.c:34-60 | No 32-bit value needs more than 32 of the 33 scratch cells; in radix 2 values from 2^31 need all 32. |
| `Itoa.TextDenotes` | cores/arduino/itoa.c:51-77 | The text of ltoa denotes the value in radix 10, and in any other radix the value, or, if negative, the value plus 2^32. |
| `Itoa.TextIsInjective` | cores/arduino/itoa.c:51-77 | In one radix, different values have different texts. |
| `Itoa.Spell` | cores/arduino/itoa.c:62-70 | The digit loop puts the digits in the scratch cells, least significant first. |
| `Itoa.CopyBack` | cores/arduino/itoa.c:72-78 | The reversal loop copies them in order and ends the string. |
| `Itoa.Ltoa` | cores/arduino/itoa.c:32-80 | The buffer holds exactly the text and its terminator, the rest untouched; no buffer or a bad radix gives no result. |
| `Itoa.Ultoa` | cores/arduino/itoa.c:87-123 | The same for unsigned values. |

## Left out

- Driver calls and register programming, pin selection and clock setup: only the timer counter with its flag, and a full-duplex unit, are modelled.
- The SCI branch of the SPI transfer, and transfers of 8 and 16 bits. The receiving side is a queue, of which at most two frames are ever in use; what a receiver of one frame would lose is not modelled, only when it would.
- Progress of the hardware: loops that wait for a flag end when the schedule given to them does, and then report that they did not finish.
- The file system adapters and the storage drivers below the block-device interface.
- Allocation failure, locks, debug output, and the branches for other compilers.
- BlockDevices.Device.Erase: a leaf device has one erase size for all addresses; only the chain has several.
- Leaf devices have less than 2^64 - 2^32 bytes, and erase blocks of at most 2^31.
- The children of a chain are windows; a plain device is the window that covers all of it.
- The chain's deinit and sync, and those of the other wrappers where they only forward, are not modelled.
- What a leaf device does with an admitted request whose end wraps is left open; contracts that forward one as it is say where it goes.
- ChainingBlockDevices.ChainingBlockDevice.Erase: of an erase that starts inside the chain and wraps, only the sizes that stay are stated; nothing is said where the check divides by zero.
- ChainedSlices.TiledErase: the same as for the chain's erase.
- BufferedBlockDevices.BufferedBlockDevice.Read: of requests of 2^32 bytes or more, which no buffer of a 32-bit machine holds, it is not said when the loop ends (`AlignDownLosesWholeChunk`).
- BufferedBlockDevices.BufferedBlockDevice.Program: requests of less than 2^32 bytes, as their buffers are; nothing is said of a copy beyond the cache.
- BufferedRuns.Replay: scripts in which a program is rerouted are excluded; one call is covered by Program.
- FlashSimBlockDevices.FlashSimBlockDevice.Program: of wrapping requests only the sizes that stay are stated.
- FlashSimBlockDevices.FlashSimBlockDevice.Erase: the same.
- HeapBlockDevices.HeapBlockDevice.Read: nothing is said of what happens outside the table of blocks.
- HeapBlockDevices.HeapBlockDevice.Program: nothing is said of what happens outside the table of blocks; the rest of a newly allocated block is left unspecified, as memory from malloc is.
- HeapBlockDevices.HeapBlockDevice.Erase: nothing is said of what happens outside the table of blocks.
- ExhaustibleBlockDevices.ExhaustibleBlockDevice.Program: nothing is said of what happens outside the table of counters, nor of wrapping requests that are passed on.
- ExhaustibleBlockDevices.ExhaustibleBlockDevice.Erase: nothing is said of what happens outside the table of counters.
- MBRBlockDevices.RoundTrip: of a device without an erase value nothing is said where init does not read the record where it was written.
- ChainingBlockDevices.ChainingBlockDevice.Read: of a request that starts inside the chain and wraps, for which a buffer of nearly 2^64 bytes would be needed, only what stays of the buffer is stated.
- ChainingBlockDevices.ChainingBlockDevice.Program: of the same requests only the sizes that stay are stated.
- ChainedSlices.TiledRead: the same as for the chain's read.
- ChainedSlices.TiledProgram: the same as for the chain's program.
- VirtualEEPROM.Put: an object whose last address does not fit in 32 bits is excluded.
- The EEPROM's block mask is modelled as rounding down to a multiple of the block size, which is the same for the powers of two in use.
- StorageRetarget.Descriptor.Read: with translation on, a byte is stored even when the length asked for is 0, which the C library never does; the buffer is modelled as the returned bytes.
- The descriptor of `StorageRetarget` carries its two saved bytes itself; that they are cleared when a descriptor is handed out is stated by the descriptor table.
- Descriptors.DescriptorTable.Close: nothing is said of the store outside the table.
- FileRegistry.Registry.Close: the same.
- Object names are compared as whole strings; names containing a zero byte, and names that change or die while registered, are not modelled.
- Whether a descriptor is a terminal, and so whether newlines are translated on it, is an input.
- Itoa.Ltoa: negating the least 32-bit value is undefined in C; the model takes the wrapped result, with which the text is right.
- `itoa` and `utoa`, which only forward.
