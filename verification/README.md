# Verified model of the maizono_os kernel and boot loader

The project models the state-keeping code of a small x86_64 kernel and its UEFI boot loader and
proves what that code keeps, over all inputs, all runs and all hardware behaviour. `dafny verify
dfyconfig.toml` checks all of it.

| part | files | in one sentence |
|---|---|---|
| physical frames | `FrameSets`, `MemoryMap`, `FrameAllocator`, `AllocatorRuns` | a bitmap of 64-bit words is a set of frames; when initialisation is exact; runs of allocations and frees keep ownership disjoint |
| console | `Pixels`, `FrameBuffer`, `ConsoleText`, `Console` | bytes show pixels, pixels show a grid, the grid is a function of all text printed |
| paging | `PageWalk`, `Paging` | the processor's walk over the tables built is the identity below 64 GiB and nothing above |
| PCI | `PciTopology`, `PciScan`, `PciConfig` | the recursive scan always ends, and records the depth-first enumeration exactly when that exists and fits |
| ELF loading | `ElfLoader` | the memory image, segment by segment, and when header order matters |
| PS/2 | `Ps2Hardware`, `Ps2Controller`, `Ps2Bringup`, `Ps2Devices`, `Ps2Init` | port discipline on any hardware, the configuration byte after bring-up, the reset handshakes, and the whole of `init` |
| GDT | `Gdt` | packed descriptors read back field by field, and which inputs leak between fields |

`Bits` gives the bitwise operators of unsigned words as functions of natural numbers, `Wrappers`
the option and result types.

A Rust panic is a returned `false`, an error value, or, where the source merely relies on its
caller, a precondition. State that the source changes in place is a class; its methods are proved
against functions of the old state, and the lemmas are about those functions.

## What the code does and its comments do not say

- `alloc` never advances its counter `i`. It hands out nothing: for every state it returns `None` for a positive count and the range's first frame for 0. `FrameAllocator.AllocAsWrittenIsFirstFitIff` says exactly when that is still first fit. `AllocIntended` is the scan the comment in `alloc` describes, and the allocator runs are stated over it.
- `init` never hands out an unavailable frame, whatever the order of the memory map, but it can give away available frames when the map is not sorted (`MemoryMap.UnsortedMapLosesFrames`), which UEFI does not promise; `MemoryMap.ExactIff` and `MemoryMap.CompleteIff` say for which maps it does not.
- The bus scan cannot recurse for ever: each function is pushed on a list of 32 before its bridge is followed, so a bridge loop ends in the panic of that push (`PciScan.Devices.ScanAllBus`).
- `load_elf` takes a minimum that starts from 0, so the base address it reports is always 0 (`ElfLoader.RaisedKernelIsReportedAtZero`); and the result of `copy_load_segment` is dropped.
- A privilege byte with any of bits 3 to 6 set, given to `set_code_segment`, leaks them into the limit (`Gdt.PrivilegeEightLeaks`); `set_limit_high` leaks into the flags, which only the order of the setters repairs.
- A port test that times out is not fatal in bring-up; if its reply comes after all, step 9 reads it as the configuration byte and the configuration is lost (`Ps2Bringup.LateReplyLosesConfig`). `Ps2Bringup.BringUp` says exactly when a completed run leaves the right configuration.
- `init` resets the mouse whether or not a second port was found, so it panics on a single-channel controller that does not answer (`Ps2Init.Init`).

## Model

| member | source | states |
|---|---|---|
| FrameSets.FirstFitUnique | kernel/src/phys_mem_manager.rs:116-136 | the first-fit promise admits one answer |
| FrameSets.FirstFitMeans | kernel/src/phys_mem_manager.rs:116-136 | frame by frame: the answer is in range and free, and every lower start, or every start if there is none, has a frame taken or out of range |
| FrameSets.TakenFrameRulesOut | kernel/src/phys_mem_manager.rs:120-134 | the jump past a taken frame skips no run that fits, and reaching the end rules out every later start |
| Bits.BitOfWithBit | kernel/src/phys_mem_manager.rs:98-107 | a write to one bit of a word sets or clears that bit and leaves the others, for words of any width |
| FrameAllocator.TestingABit | kernel/src/phys_mem_manager.rs:109-114 | the mask test reads the bit |
| FrameAllocator.FramesAfterWrite | kernel/src/phys_mem_manager.rs:98-107 | the word update is the addition or removal of one frame of the set, across all words |
| FrameAllocator.BitmapMemoryManager.constructor | kernel/src/phys_mem_manager.rs:50-56 | a new manager holds no frame and spans all of them |
| FrameAllocator.BitmapMemoryManager.SetBit | kernel/src/phys_mem_manager.rs:98-107 | the set gains or loses exactly the frame named, at bit frame mod 64 of word frame / 64 |
| FrameAllocator.BitmapMemoryManager.GetBit | kernel/src/phys_mem_manager.rs:109-114 | membership in the set, and bit frame mod 64 of word frame / 64 |
| FrameAllocator.BitmapMemoryManager.MarkAllocated | kernel/src/phys_mem_manager.rs:87-91 | the set gains exactly the run |
| FrameAllocator.BitmapMemoryManager.Free | kernel/src/phys_mem_manager.rs:138-142 | the set loses exactly the run |
| FrameAllocator.BitmapMemoryManager.MarkArea | kernel/src/phys_mem_manager.rs:64-78 | one descriptor adds the gap before it and, if unavailable, itself |
| FrameAllocator.BitmapMemoryManager.Init | kernel/src/phys_mem_manager.rs:58-85 | the marks of the whole map are added, the range runs from frame 1 to the last available end; for a fresh manager and an aligned map the range is exact if and only if no unavailable area and no gap meets an available area in it, and what can be handed out is all that is available if besides, and only if, no available area reaches past the range; for a sorted, disjoint map a frame can be handed out exactly when it is not frame 0 and lies in an area of type 3, 4 or 7 |
| FrameAllocator.BitmapMemoryManager.Alloc | kernel/src/phys_mem_manager.rs:116-136 | as written: it ends on every state, changes nothing, and its answer depends on the count alone |
| FrameAllocator.BitmapMemoryManager.AllocIntended | kernel/src/phys_mem_manager.rs:116-136 | as the comment intends: the lowest free run inside the range, marked and nothing else; None exactly when there is none |
| FrameAllocator.AllocAsWrittenIsFirstFitIff | kernel/src/phys_mem_manager.rs:119-134 | the code as written keeps the first-fit promise exactly for count 0 and where no run fits |
| FrameAllocator.AllocAsWrittenMissesAFreeFrame | kernel/src/phys_mem_manager.rs:119-134 | one free frame in range that it does not find |
| MemoryMap.UnavailableIsMarked | kernel/src/phys_mem_manager.rs:60-79 | in any order, overlaps included: below the last available end a frame outside available areas is marked |
| MemoryMap.AvailableIsClear | kernel/src/phys_mem_manager.rs:60-79 | in a sorted map no frame of an available area is ever marked, directly or as part of a gap |
| MemoryMap.InitIsExact | kernel/src/phys_mem_manager.rs:58-85 | for a sorted, disjoint map: below the end and clear if and only if inside an available area |
| MemoryMap.MarkedIff | kernel/src/phys_mem_manager.rs:60-79 | for any map: a frame is marked exactly when some unavailable area holds it, or some area starts past it when the last available area before had ended |
| MemoryMap.ExactIff | kernel/src/phys_mem_manager.rs:58-85 | for any map: initialisation is exact in its range exactly when no unavailable area, and no gap, meets an available area there, an interval test on pairs of descriptors |
| MemoryMap.CompleteIff | kernel/src/phys_mem_manager.rs:58-85 | for any map: every available frame can be handed out, and no other, exactly when besides no available area reaches past the last available end |
| MemoryMap.UnsortedMapLosesFrames | kernel/src/phys_mem_manager.rs:64-69 | a map out of order whose available frame 8 is marked |
| MemoryMap.AvailableByType | kernel/src/memory_map.rs:6-10 | available are areas of type 3, 4 and 7 and no others |
| AllocatorRuns.NextKeepsInv | kernel/src/phys_mem_manager.rs:116-142 | each allocation and each free of an outstanding block keeps the ownership invariant |
| AllocatorRuns.EveryRunIsSafe | kernel/src/phys_mem_manager.rs:116-142 | in every state of every run outstanding blocks are disjoint, in range, clear of reserved frames, and the bitmap is reserved plus outstanding |
| AllocatorRuns.NoFrameIsOwnedTwice | kernel/src/phys_mem_manager.rs:116-142 | frame by frame: a frame of an outstanding block is in no other block, in range, not reserved, and its bit is set |
| AllocatorRuns.OwnedFramesAreAvailable | kernel/src/phys_mem_manager.rs:58-142 | from initialisation through any run, a frame handed out is never frame 0 and lies in an available area of the memory map |
| AllocatorRuns.FreeUndoesAlloc | kernel/src/phys_mem_manager.rs:116-142 | freeing the block just allocated restores bitmap and ownership |
| AllocatorRuns.FramesAreConserved | kernel/src/phys_mem_manager.rs:116-142 | set bits number reserved frames plus outstanding counts; with nothing outstanding the bitmap is as initialised |
| AllocatorRuns.Serve | kernel/src/phys_mem_manager.rs:116-142 | the bitmap manager follows such a run, one step for each request in order; a free of a block not outstanding does nothing |
| Pixels.EncodeDecode | common/src/graphic.rs:107-137 | in RGB and BGR order the display shows the colour written, with a zero reserved byte |
| Pixels.EncodeDigits | common/src/graphic.rs:107-141 | the bytes stored are the red, green and blue bytes of the colour and a zero, or blue, green, red and a zero |
| FrameBuffer.OffsetInBounds | kernel/src/graphic/frame_buffer.rs:166-176 | a pixel inside lies below width * height * 4 |
| FrameBuffer.OffsetsDoNotAlias | kernel/src/graphic/frame_buffer.rs:170-184 | distinct pixels share no byte |
| FrameBuffer.ColorAfterStore | kernel/src/graphic/frame_buffer.rs:166-192 | four bytes stored change what is shown at one pixel only, to the colour written |
| FrameBuffer.GlyphRowDigits | kernel/src/graphic/frame_buffer.rs:131-136 | the eight pixels of a glyph row, left to right, are the binary digits of its byte, most significant first |
| FrameBuffer.FrameBuf.constructor | kernel/src/graphic/frame_buffer.rs:53-65 | the buffer takes over memory as it is; the ghost screen is what the bytes show |
| FrameBuffer.FrameBuf.Fill | kernel/src/graphic/frame_buffer.rs:74-84 | never fails; every pixel shows the colour |
| FrameBuffer.InitFrameBuf | kernel/src/graphic/frame_buffer.rs:52-68 | never fails; at every pixel the bytes decode to the background colour |
| FrameBuffer.FrameBuf.WritePixel | kernel/src/graphic/frame_buffer.rs:166-192 | inside, the four bytes at 4 * (y * width + x) become the colour's bytes in the order of the format and a zero, and no other byte changes; outside, an error and no change |
| FrameBuffer.FrameBuf.FillRect | kernel/src/graphic/frame_buffer.rs:86-100 | succeeds exactly when the rectangle fits or is empty, and which pixels are painted, also when it stops half way |
| FrameBuffer.FrameBuf.WriteChar | kernel/src/graphic/frame_buffer.rs:121-139 | succeeds exactly when every drawn pixel is inside; paints glyph bits and nothing else |
| FrameBuffer.FrameBuf.WriteGlyphRow | kernel/src/graphic/frame_buffer.rs:132-136 | the same for one row of a glyph |
| ConsoleText.LinesJoin | kernel/src/graphic/console.rs:144-160 | joining the lines gives back the text and no line holds a line feed |
| ConsoleText.SplitIsUnique | kernel/src/graphic/console.rs:144-160 | no other split into lines without line feeds joins back to the text |
| ConsoleText.RowsAfterChar | kernel/src/graphic/console.rs:148-158 | a character extends the cursor row while it is shorter than 149, and changes nothing else |
| ConsoleText.RowsAfterLineFeed | kernel/src/graphic/console.rs:111-142 | a line feed moves down, or drops the top row of 25 |
| ConsoleText.RowsBelowCursor | kernel/src/graphic/console.rs:111-160 | rows under the cursor are empty |
| Console.Line.Push | kernel/src/graphic/console.rs:55-64 | fails exactly on a full line, else appends to the content |
| Console.RenderAfterPush | kernel/src/graphic/frame_buffer.rs:121-139 | appending a character changes the rendering in one cell, where its glyph has bits |
| Console.TextConsole.NewEmpty | kernel/src/graphic/console.rs:83-91 | an empty console over a frame buffer |
| Console.TextConsole.Init | kernel/src/graphic/console.rs:93-109 | succeeds exactly on a buffer of at least 1200x400, and then screen, grid and cursor are those of the empty text |
| Console.TextConsole.DrawChar | kernel/src/graphic/console.rs:149-155 | never fails, and turns the picture of a grid into that of the grid with the character |
| Console.TextConsole.DrawLine | kernel/src/graphic/console.rs:128-137 | redraws one row from blank |
| Console.TextConsole.ScrollRow | kernel/src/graphic/console.rs:125-138 | one round of the scroll moves one line up and draws it |
| Console.TextConsole.Scroll | kernel/src/graphic/console.rs:116-140 | after fill, shift and redraw the pixels show the shifted grid, and no pixel outside the console changes |
| Console.TextConsole.NewLine | kernel/src/graphic/console.rs:111-142 | text gains a line feed; grid, cursor and pixels follow |
| Console.TextConsole.PutChar | kernel/src/graphic/console.rs:148-158 | text gains the character, the push never fails; grid, cursor and pixels follow |
| Console.TextConsole.Print | kernel/src/graphic/console.rs:144-160 | text gains the string; grid, cursor and pixels are those of the whole text, and pixels outside are as before initialisation |
| Console.TextConsole.Println | kernel/src/graphic/console.rs:162-165 | print and a line feed |
| Console.PixelsShowTheText | kernel/src/graphic/console.rs:93-165 | at each pixel of the console the bytes decode to the rendering of the last 25 lines printed, truncated to 149 |
| Console.ScreenShowsTheLastLines | kernel/src/graphic/console.rs:93-165 | from the text alone: splitting all that was printed at its line feeds, the cell of 8 by 16 pixels in row r and column k holds, in the bytes of memory, the font's rows for character k of the r-th of the last 25 lines, up to the 149th, in the foreground colour on the background |
| Console.SameTextSameScreen | kernel/src/graphic/console.rs:111-165 | the split of a text over calls makes no difference |
| Paging.TableEntry | kernel/src/paging.rs:101-107 | or-ing the flags onto an aligned address adds them |
| Paging.PageEntry | kernel/src/paging.rs:109-109 | the entry of a 2 MiB page, as a sum |
| Paging.PageTables.constructor | kernel/src/paging.rs:90-93 | zeroed tables at given addresses |
| Paging.PageTables.Init | kernel/src/paging.rs:95-111 | every entry of the three tables after the nested loops, in numbers |
| Paging.PageTables.FillPageDir | kernel/src/paging.rs:108-110 | one directory, with the ones before it intact |
| Paging.IdentityBelow64GiB | kernel/src/paging.rs:95-126 | the walk from CR3 gives each address below 64 GiB back, present and writable at every level |
| Paging.NothingElseIsMapped | kernel/src/paging.rs:95-126 | every other 48-bit address is not present |
| Paging.IdentityMapExactly | kernel/src/paging.rs:95-126 | both, over canonical addresses |
| PciTopology.DepthIsMonotone | kernel/src/pci/mod.rs:201-242 | a complete enumeration does not depend on the bridge depth allowed |
| PciTopology.LengthIsEnoughDepth | kernel/src/pci/mod.rs:228-239 | an enumeration needs no more nested bridges than it has entries, since each bridge is pushed first |
| PciTopology.FitsAtAnyDepth | kernel/src/pci/mod.rs:181-242 | whether an enumeration fits the room left is decided within that depth |
| PciTopology.ListedIffNoLoop | kernel/src/pci/mod.rs:201-242 | the enumeration exists exactly when no chain of bridges comes back to a bus |
| PciTopology.UpwardBridgesMakeNoLoop | kernel/src/pci/mod.rs:234-239 | secondary buses above their own bus make no loop |
| PciTopology.ListedAsOftenAsEntered | kernel/src/pci/mod.rs:201-242 | a function is listed as often as its bus is entered |
| PciTopology.ListingAccounts | kernel/src/pci/mod.rs:201-242 | over a whole listing: every entry is a function, listed as often as its bus is entered |
| PciTopology.NoDuplicatesIff | kernel/src/pci/mod.rs:201-242 | no function is listed twice exactly when no populated bus is entered twice |
| PciScan.TopologyReflects | kernel/src/pci/mod.rs:201-226 | slot by slot, the topology is what vendor ids and header types make the scan visit |
| PciScan.TopologyIsLabelled | kernel/src/pci/mod.rs:228-232 | devices carry the numbers of their slot |
| PciScan.OutcomeOfTwo | kernel/src/pci/mod.rs:201-226 | consecutive scans record consecutive listings, although the second has less room |
| PciScan.Devices.AddDevice | kernel/src/pci/mod.rs:180-183 | the push of a full list panics and changes nothing |
| PciScan.Devices.ScanFunction | kernel/src/pci/mod.rs:228-242 | ends on every topology; normally exactly when the function's listing exists and fits, then appended; the loops only reach it with device below 32 and function below 8 |
| PciScan.Devices.ScanDevice | kernel/src/pci/mod.rs:211-226 | the same for the eight functions of a device |
| PciScan.Devices.ScanBus | kernel/src/pci/mod.rs:201-209 | the same for a bus |
| PciScan.Devices.ScanAllBus | kernel/src/pci/mod.rs:185-199 | ends normally if and only if no way from a root through bridges comes back to a bus and the enumeration of the machine fits the 32 places left, and then has appended it: exactly the functions that answer on the buses so reached, each with its registers; anything else panics with a full list. One root bus, or one per host-bridge function |
| PciScan.EnumeratedIff | kernel/src/pci/mod.rs:185-242 | the machine has an enumeration exactly when no chain of bridges from a root bus comes back to a bus |
| PciScan.EnumeratesTheFunctions | kernel/src/pci/mod.rs:185-242 | over the registers: a device is enumerated exactly when its function answers on a bus that is a start or the secondary bus of a function of class 06.04 on such a bus, and its header type and class code are those registers |
| PciScan.FunctionsBehindABridge | kernel/src/pci/mod.rs:234-239 | every function that answers on the secondary bus of an enumerated bridge is enumerated |
| PciScan.LoopsIff | kernel/src/pci/mod.rs:234-239 | a bridge loop, over the registers |
| PciScan.RootFitsIff | kernel/src/pci/mod.rs:180-242 | what the scan records in a given room is the enumeration, exactly when there is no loop and it is that short |
| PciScan.UpwardBridgesAreEnumerated | kernel/src/pci/mod.rs:234-239 | with secondary buses above their own bus only the room decides |
| PciScan.ScanRecordsNoDuplicatesIff | kernel/src/pci/mod.rs:185-242 | what ScanAllBus appends holds no function twice exactly when no populated bus is entered twice from the root buses |
| PciConfig.AddressSum | kernel/src/pci/mod.rs:254-262 | the fields of an address do not overlap for 5 bits of device and 3 of function |
| PciConfig.AddressDecodesIff | kernel/src/pci/mod.rs:254-262 | an address decodes to its bus, device, function and aligned offset exactly for device below 32 and function below 8 |
| PciConfig.AddressInjective | kernel/src/pci/mod.rs:254-262 | no two registers the scan reads share an address |
| PciConfig.ReadRegister | kernel/src/pci/mod.rs:279-312 | an address written and data read give the register asked for |
| PciConfig.RegisterFields | kernel/src/pci/mod.rs:279-312 | vendor id, header type, class code and secondary bus are the right bytes of the right registers |
| ElfLoader.CopySegment | bootloader/src/kernel.rs:126-145 | panics exactly on a bad slice and before any write; else the slice of the file, then zeros, and no other byte changes |
| ElfLoader.CopyLoadSegments | bootloader/src/kernel.rs:94-104 | completes exactly when every PT_LOAD header is loadable; memory is the image of the headers before the first that is not, or of all of them |
| ElfLoader.LastSegmentDecides | bootloader/src/kernel.rs:94-145 | at each address the last header that covers it decides |
| ElfLoader.UncoveredIsUnchanged | bootloader/src/kernel.rs:94-145 | memory no segment covers is unchanged |
| ElfLoader.DisjointSegmentsAreIntact | bootloader/src/kernel.rs:94-145 | disjoint segments each hold file bytes then zeros, the rest is unchanged |
| ElfLoader.SegmentIsLoaded | bootloader/src/kernel.rs:94-145 | a PT_LOAD segment that overlaps no other: its file bytes as a slice, then zero bytes |
| ElfLoader.RestIsKept | bootloader/src/kernel.rs:94-145 | bytes outside every PT_LOAD segment are kept |
| ElfLoader.OrderIrrelevantIff | bootloader/src/kernel.rs:94-145 | every order of the headers gives the same image exactly when overlapping segments agree |
| ElfLoader.LoadRange | bootloader/src/kernel.rs:61-72 | the start is always 0, and is the lowest segment address exactly when a segment is at 0; the end is the greatest segment end |
| ElfLoader.PageCount | bootloader/src/kernel.rs:74-74 | the fewest pages that cover the range |
| ElfLoader.RaisedKernelIsReportedAtZero | bootloader/src/kernel.rs:61-74 | for a kernel of one page at 1 MiB, 0 is not the lowest address, and the range from 0 takes 0x101 pages |
| Ps2Hardware.BitOfSetBit | kernel/src/ps2/controller.rs:222-228 | one bit of the configuration byte changes |
| Ps2Hardware.PolledThen | kernel/src/ps2/controller.rs:44-59 | polls and one allowed access keep discipline and move the controller by that access alone |
| Ps2Hardware.GenuineIsExplained | kernel/src/ps2/controller.rs:44-70 | disciplined traffic with the ports of a controller, whatever they hide and for however long, is traffic of that controller |
| Ps2Hardware.OpenIsHonest | kernel/src/ps2/controller.rs:61-70 | ports that hide nothing report a waiting byte at every poll |
| Ps2Hardware.HonestIsPrompt | kernel/src/ps2/controller.rs:61-70 | such traffic has no late reply |
| Ps2Hardware.NothingReadWhileHidden | kernel/src/ps2/controller.rs:56-70 | while the ports hide what waits, the driver reads nothing |
| Ps2Hardware.OpenRun | kernel/src/ps2/controller.rs:44-70 | a run on ports that hide nothing meets every assumption made about controllers |
| Ps2Controller.Controller.WaitForRead | kernel/src/ps2/controller.rs:61-70 | only polls, at most the timeout; a timeout means that many silent polls |
| Ps2Controller.Controller.WaitForWrite | kernel/src/ps2/controller.rs:72-81 | only polls, at most the timeout; success means the last one showed the input buffer free |
| Ps2Controller.Controller.ReadData | kernel/src/ps2/controller.rs:56-59 | at most one data read, right after a poll that reported a byte; a timeout reads nothing, and on a prompt controller means none waited |
| Ps2Controller.Controller.WriteData | kernel/src/ps2/controller.rs:44-50 | at most one data write, right after a poll with the input buffer free; a timeout writes nothing |
| Ps2Controller.Controller.WriteCommand | kernel/src/ps2/controller.rs:38-42 | one command, and the controller moves by it |
| Ps2Controller.Controller.FlushDataPort | kernel/src/ps2/controller.rs:83-90 | ends on any hardware within timeout * (timeout + 2) + 1 accesses, gives no command and leaves the configuration alone; empties the buffer of an honest controller with no more bytes than the timeout |
| Ps2Controller.Controller.ReadConfigByte | kernel/src/ps2/controller.rs:131-135 | from an empty buffer, the configuration byte itself |
| Ps2Controller.Controller.WriteConfigByte | kernel/src/ps2/controller.rs:137-144 | the configuration byte becomes the one written |
| Ps2Controller.Controller.TestController | kernel/src/ps2/controller.rs:146-155 | takes the first byte waiting, its own reply last, and passes exactly on 0x55; a timeout takes none |
| Ps2Controller.Controller.TestPort | kernel/src/ps2/controller.rs:161-181 | leaves the configuration alone on all explained traffic; takes the first byte waiting, its own reply last, and passes exactly on 0x00; a timeout takes none |
| Ps2Bringup.Quiesce | kernel/src/ps2/mod.rs:18-23 | steps 3 and 4: the two commands, the clock bits they set, and the flush |
| Ps2Bringup.Configure | kernel/src/ps2/mod.rs:25-48 | its four commands in order; the byte written in step 5 survives a self test that changes it arbitrarily, on all explained traffic; it fails only on a wait in vain or a self test, found at its place in the traffic, that is not answered with 0x55 |
| Ps2Bringup.DetectSecondPort | kernel/src/ps2/mod.rs:50-77 | its commands in order; a second port is found exactly when bit 5 clears, and the byte left behind, on all explained traffic |
| Ps2Bringup.TestPorts | kernel/src/ps2/mod.rs:79-83 | its commands, 0xAB and with a second port 0xA9, each at its place in the traffic; the configuration is left alone; what waits afterwards are the replies less as many bytes as were read; on a prompt controller the first port works iff 0xAB is answered with 0x00, the second iff 0xA9 is |
| Ps2Bringup.EnablePorts | kernel/src/ps2/mod.rs:85-100 | its commands in order; the byte after step 9, whatever enabling the ports did to it in between: made from the configuration, or from the first byte waiting if any |
| Ps2Bringup.WaitingByteIsHarmlessIff | kernel/src/ps2/mod.rs:85-100 | step 9 keeps the configuration exactly when nothing waits or the first byte waiting agrees with it |
| Ps2Bringup.BringUpBits | kernel/src/ps2/mod.rs:25-100 | all eight bits of the final byte, from the byte first read |
| Ps2Bringup.BringUp | kernel/src/ps2/mod.rs:18-100 | every run gives the commands of steps 3 to 9 in order, and panics only on a wait in vain or a refused self test; one that completes leaves bit 0 set iff the first port passed, bit 1 iff the second did, bits 4, 5 and 6 clear with a second port, the others as before, if and only if the bytes waiting at step 9, unread replies to the port tests, are harmless; on a prompt controller none wait, and only a self test not answered with 0x55 panics; port discipline on any hardware |
| Ps2Bringup.ScriptedBytes | kernel/src/ps2/mod.rs:18-100 | all the commands of a run that completes, as bytes in one row |
| Ps2Bringup.FinalBits | kernel/src/ps2/mod.rs:25-100 | the eight bits of the final byte against the byte the controller had at the start |
| Ps2Bringup.BringUpOpenly | kernel/src/ps2/mod.rs:18-100 | on the ports of any controller that hides nothing, with no further assumption: when it completes, which ports work, and the final bits from the initial configuration |
| Ps2Bringup.LateReplyLosesConfig | kernel/src/ps2/mod.rs:79-100 | on ports that show the reply to a port test only after the next command, a whole run completes and leaves a wrong configuration byte, for every initial configuration, with or without a second port |
| Ps2Devices.ResponseRoundTrip | kernel/src/ps2/keyboard.rs:43-70 | the eight codes and responses correspond one to one, as listed |
| Ps2Devices.HandshakesCompose | kernel/src/ps2/keyboard.rs:92-129 | over any sequence of device exchanges the bytes that waited, then the answers to the bytes sent, are the bytes read, then those left: nothing lost, invented or out of order |
| Ps2Devices.ReadResponse | kernel/src/ps2/keyboard.rs:92-95 | at most one byte read, the result is its meaning, and on a prompt controller none is read only when none waits |
| Ps2Devices.KeyboardCommand | kernel/src/ps2/keyboard.rs:97-117 | the result is a function of the replies, Ok exactly when command and optional data byte are each answered with 0xFA, having sent both; bytes waiting and answers are the bytes read and those left, in order; on a prompt controller Ok exactly when they begin with the acknowledgements |
| Ps2Devices.KeyboardReset | kernel/src/ps2/keyboard.rs:119-129 | Ok exactly on the replies 0xFA, 0xAA, having sent one 0xFF; which replies give which error; on a prompt controller the 0xFF is sent, and it is Ok exactly when what waits and is answered begins with 0xFA, 0xAA |
| Ps2Devices.WriteToSecondPort | kernel/src/ps2/controller.rs:108-114 | the byte follows command 0xD4 with only polls between |
| Ps2Devices.MouseCommand | kernel/src/ps2/mouse.rs:58-83 | the same for the mouse, with every byte sent routed by 0xD4 |
| Ps2Devices.EnableDataReporting | kernel/src/ps2/mouse.rs:85-88 | Ok exactly on 0xFA, having sent 0xF4; on a prompt controller exactly when what waits and is answered begins with it |
| Ps2Devices.MouseReset | kernel/src/ps2/mouse.rs:90-103 | Ok exactly on 0xFA, 0xAA and one id byte, which is returned; which replies give which error; every byte sent is routed by 0xD4; on a prompt controller the 0xFF is sent, and it is Ok exactly when what waits and is answered begins so |
| Ps2Init.ResetDevices | kernel/src/ps2/mod.rs:102-113 | step 10 succeeds exactly when keyboard and mouse give all their replies; it resets the mouse with or without a second port, and keeps the configuration byte; on a prompt controller no part due is skipped and it succeeds exactly when the bytes waiting and the answers to its writes are what the parts need, one after the other |
| Ps2Init.Init | kernel/src/ps2/mod.rs:13-114 | ends normally exactly when steps 3 to 9 complete and the bytes read after them are all the replies of keyboard and mouse; on a prompt controller exactly when the answers to the resets are what step 10 needs; panics on a controller that answers nothing to the mouse reset, single-channel or not; the configuration is right exactly when the bytes waiting at step 9 were harmless |
| Ps2Init.InitOpenly | kernel/src/ps2/mod.rs:13-114 | on the ports of any controller that hides nothing, with no further assumption: init ends normally exactly when the self test is answered with 0x55 and the devices answer as step 10 needs; the commands given, as bytes; the ports that work, from the replies to 0xAB and 0xA9; every bit of the final configuration |
| Ps2Init.PlainAnswers | kernel/src/ps2/mod.rs:102-113 | a keyboard that answers 0xFA, 0xAA and a mouse that answers three bytes: init needs 0xFA, 0xAA of the mouse, and 0xFA to the last command with a second port |
| Ps2Init.AnsweredInitEndsNormally | kernel/src/ps2/mod.rs:13-114 | a controller and devices, for every configuration and with or without a second port, on which init ends normally with the right configuration |
| Gdt.CodeSegmentFields | kernel/src/gdt.rs:56-188 | every field read back, for every base, limit, type and privilege byte |
| Gdt.LimitAndPrivilegeIff | kernel/src/gdt.rs:117-138 | the limit comes back exactly when bits 3 to 6 of the privilege byte are set in it already, the privilege exactly when below 4 |
| Gdt.ReadsBackPlainly | kernel/src/gdt.rs:117-138 | below privilege 4, limit modulo 2^20 and privilege come back from any descriptor so built |
| Gdt.PrivilegeEightLeaks | kernel/src/gdt.rs:117-138 | privilege byte 8 with limit 0 reads back as limit 0x10000, privilege 0 |
| Gdt.SegmentWords | kernel/src/gdt.rs:43-188 | three descriptors as whole words, one with every field different |
| Gdt.LimitHighSpillsIntoFlags | kernel/src/gdt.rs:134-182 | the unmasked byte of the limit is or-ed onto the flags, which the later setters overwrite |
| Gdt.LimitHighWrittenLastIff | kernel/src/gdt.rs:69-79 | in another order the flags would survive exactly for limits with bits 20 and 22 clear |
| Gdt.DataSegmentFields | kernel/src/gdt.rs:43-53 | every field of a data segment read back, with both L and D set |
| Gdt.SegmentDescriptor.SetCodeSegment | kernel/src/gdt.rs:56-80 | after the thirteen in-place writes base, type and flags read back as given, the privilege modulo 4, and the limit modulo 2^20 with bits 3 to 6 of the privilege byte or-ed onto its top; ExecuteRead sets bits 43 and 41, ReadWrite bit 41 alone |
| Gdt.SegmentDescriptor.SetDataSegment | kernel/src/gdt.rs:43-53 | the same for a data segment, with both L and D set |
| Gdt.KernelDescriptors | kernel/src/gdt.rs:13-17 | the kernel's two descriptors as whole words |

## Left out

- kernel/src/acpi.rs, kernel/src/arch.rs, kernel/src/interrupts.rs, kernel/src/timer.rs: register writes in a fixed order and calls into external crates.
- bootloader/src/main.rs, the file reading in load_kernel, ELF parsing and page allocation: firmware and library calls; nothing is claimed about where the allocated pages lie, since the loader discards their address.
- Mutex and lock failures, inline assembly, loads of CR3, GDTR and segment registers: only the data they are given is modelled.
- draw_rect and write_string of the frame buffer, the mouse pointer drawing, read_base_addr and read_device_id of PCI, the second-port output buffer: would only add easy members.
- The font: any table of 256 glyphs of 16 rows; the branch for codes past its end cannot be taken by an ASCII character.
- The frame buffer's stride: stored and never used by the source; results are about the linear layout of `width` pixels a row, four bytes each.
- Console text outside ASCII: the source panics on it; the model's text is ASCII by type.
- 64-bit overflow of addresses: segments and memory-map areas lie inside memory, below 128 GiB for the latter.
- Ps2Bringup.BringUp: the final bits are stated for an output buffer that is empty after the flush, which holds when at most 1000 bytes waited and every poll of the flush reported them; printing is left out.
- Bytes that keyboard and mouse send unasked: the devices of the model speak only in answer to a byte sent to them.
- Gdt.DataSegmentFields: the D bit of a data segment is modelled as the source sets it, not as the architecture asks.
- Cache, access-right and user bits of page-table entries beyond present, writable, page size and the reserved bits of large pages.
