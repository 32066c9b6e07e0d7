# Verified models of Horizon-OC

Dafny models of the parts of Horizon-OC that mix loops, state and arithmetic, with proofs of what they promise
for every input and every run. `dafny verify dfyconfig.toml` checks everything.

**The NSO loader** (`NsoFormat`, `NsoHeaders`, `NsoLayout`, `NsoLoading`, `NsoProcess`). The loader reads up to 23
module files, checks their headers, chooses where modules and arguments go, and loads the segments. Compressed bytes are read into
the tail of the mapping that receives the decompressed ones, and a Zstd module is mapped to the end of the process,
over modules that are not loaded yet. Memory is one array that starts at the code address. `CreateProcess` goes from
arbitrary files to loaded memory and shows that every module ends up exactly as text, zeros, read-only data, zeros,
data, zeros, or which error is returned. The 1.10 loader (sparse slots, hashes checked at once) is modelled beside the
1.11 loader (dense slots, hashes checked at the end). `CreateBoth` runs both on the same inputs without Zstd: they
succeed for the same programs, at the same addresses, with the same memory wherever 1.10 says what it leaves.

**IPC messages** (`IpcFormat`, `IpcMessage`, `IpcParsing`, `IpcDomain`). The builder bumps counters and fills arrays
in a command, `PrepareHeader` prints it into the words of the thread-local area, `Parse` reads them back. Words are
bit-vectors, so packing is the shifts and masks of the code; the memory they stand in may be of any length, since the
code does not stop at the end of the 0x200-byte area. `RoundTrip` and `DomainRoundTrip` say what comes back and
exactly when all of it does.

**MemTester** (`MemTesterProtocol`, `MemTesterProgress`, `MemTesterDeadlock`, `MemTesterPatterns`,
`MemTesterAddresses`). The barrier between main and the workers is a state machine over its single reads and writes.
The tests are methods over memory with stuck bits, or with address lines that lead two words to one cell, and are
proved to find exactly those faults they can tell.

**TinyMemBench** (`StartGate`, `StartGateRuns`, `NonAliasedBuffers`). The start gate is a state machine with a mutex,
two wait sets and wakeups for no reason; the allocator is a method over addresses.

**Register access tables** (`RegisterAccess`), **resolution merge** (`ResolutionMerge`), **launch combo** (`KeyCombo`).
Bit tables that are built, trimmed and moved; a bounded two-pass merge between two sorts; a lowest-bit loop beside a
mask test.

Where code and documentation disagree the model follows the code: `ipc.h:368` documents `WasHandleCopied` as true for
moved handles, `ipc.h:443` sets it for copied ones. Facts about the code that the proofs bring out:

- A MemTester worker that polls only after main has gone on from -2 to -1 waits forever. Main then waits for it forever
  as well, unless a worker with a lower number has failed: in that case main comes to that one first and gives up. From
  any state of a run a deadlock lies ahead exactly if some worker has not seen -2 and none in front of it has failed
  (`MemTesterDeadlock.DeadlockExactly`).
- The barrier would not hold for an empty test table (`MemTesterProgress.LockStepExactly`). That cannot occur in the
  program: both tables of `main.c:91-119` are fixed and not empty.
- The block TinyMemBench asks malloc for is too small, or its size negative, when four sizes and the padding reach 2^31
  (`NonAliasedBuffers.BlockIsNeededExactly`).
- A resolution that the render calls list twice is always shown twice. One that the viewport calls list twice is, if no
  render call has it and the eight slots are not full before the second entry (`ResolutionMerge.OutputDistinctExactly`).
- A register table that reaches 2^32 would refuse registers of its list, because the end of its range is a 32-bit sum
  (`RegisterAccess.AsksTheListExactly`).
- `ipcPrepareHeader` puts the raw size into its word unmasked: from 512 words on it is read back wrong, and from 1024
  words on it can change the number of receive statics (`IpcParsing.SizesReadBack`).
- The second bounds check of the register lookup cannot refuse anything (`RegisterAccess.IsAccessAllowed`).

Functions that only the model knows, such as the job of a round, a packed word or the size of a region, are also said in
numbers, masks or bytes by a lemma of their own, so a theorem stated through them can be read without their bodies.

Assumptions shared by all state machines: steps are sequentially consistent, and a thread that can run is not assumed
to run. What comes from outside is a parameter: file contents, random numbers, the address windows of the address-space
types, the size of the argument buffer and the layout of its header, the results of malloc and of the individual tests,
the order of ties in qsort.

## Model

| member | source | states |
|---|---|---|
| NsoFormat.SegmentLoadsExactly | Source/Old-Atmosphere-Patches/ldr_process_creation_1_11_0.cpp:647-676 | a segment loads, and is then the given bytes, exactly when its sizes fit, the file reaches to its end, and those bytes are as long as the segment and are the bytes of the file or, if it is compressed, what the decompressor the flag names gives for them |
| NsoFormat.SegmentFailsExactly | Source/Old-Atmosphere-Patches/ldr_process_creation_1_11_0.cpp:647-676 | only an offset behind the end of the file is a read error; anything else that is wrong makes an invalid module |
| NsoFormat.ModuleLoadsExactly | Source/Old-Atmosphere-Patches/ldr_process_creation_1_11_0.cpp:691-723 | when the three segments load, decompressed as the header says and with room up to the end of the mapping, the module is their image exactly if every segment that asks for it has the hash of the header |
| NsoFormat.ModuleFailsExactly | Source/Old-Atmosphere-Patches/ldr_process_creation_1_11_0.cpp:704-710 | otherwise the first of the three that does not load decides the error |
| NsoFormat.SparseModuleLoadsExactly | Source/Old-Atmosphere-Patches/ldr_process_creation_1_10_0_to_1_10_2.cpp:629-687 | in 1.10 the same with every segment taken for LZ4, up to the end of bss |
| NsoFormat.SpanIs | Source/Old-Atmosphere-Patches/ldr_process_creation_1_11_0.cpp:561-568 | a module spans up to the end of its last segment and bss behind that |
| NsoFormat.ImageAt | Source/Old-Atmosphere-Patches/ldr_process_creation_1_11_0.cpp:712-718 | byte by byte, a finished module is text, read-only data and data at their offsets and zero in all three gaps up to the module's size |
| NsoFormat.HashOrderIrrelevant | Source/Old-Atmosphere-Patches/ldr_process_creation_1_11_0.cpp:678-723 | without Zstd, checking the hashes after all loads and zero-fills accepts exactly the modules that checking each one at once accepts, and the images agree up to the end of bss |
| NsoFormat.SameErrorExactly | Source/Old-Atmosphere-Patches/ldr_process_creation_1_10_0_to_1_10_2.cpp:629-660 | and both report the same error unless a wrong hash comes before a segment that cannot be read |
| NsoFormat.ErrorsDiffer | Source/Old-Atmosphere-Patches/ldr_process_creation_1_10_0_to_1_10_2.cpp:629-660 | in that case 1.11 reports the read error and 1.10 the invalid module |
| NsoFormat.ErrorsCanDiffer | Source/Old-Atmosphere-Patches/ldr_process_creation_1_10_0_to_1_10_2.cpp:629-660 | whatever the hash function, there are a file and a header for which that case arises |
| NsoHeaders.AutoLoadModuleContext.LoadHeaders | Source/Old-Atmosphere-Patches/ldr_process_creation_1_11_0.cpp:192-263 | succeeds exactly when every file looked at gives a whole header; the first that does not decides between the read error and the invalid-module error. The dense arrays are then the present files in order, and the special indices and flags are theirs |
| NsoHeaders.AutoLoadModuleContext.CheckAutoLoad | Source/Old-Atmosphere-Patches/ldr_process_creation_1_11_0.cpp:265-312 | accepts exactly: a main, an allowed combination of rtld, sdk, subsdks and browser DLLs, and for every module readable code, aligned and ordered segments, and Zstd only on main beside rtld and sdk |
| NsoHeaders.AutoLoadModuleInfo.LoadHeaders | Source/Old-Atmosphere-Patches/ldr_process_creation_1_10_0_to_1_10_2.cpp:179-241 | the same outcome, and the same files leave the sparse header cache and presence bits |
| NsoHeaders.AutoLoadModuleInfo.CheckAutoLoad | Source/Old-Atmosphere-Patches/ldr_process_creation_1_10_0_to_1_10_2.cpp:243-291 | accepts exactly the same combinations and extents, with no rule about Zstd |
| NsoHeaders.DenseIndexIsPosition | Source/Old-Atmosphere-Patches/ldr_process_creation_1_11_0.cpp:231-258 | the dense index recorded for a present file is in range and leads back to that file |
| NsoHeaders.PresentIndicesIncrease | Source/Old-Atmosphere-Patches/ldr_process_creation_1_11_0.cpp:257-258 | dense slots are in file order |
| NsoHeaders.PositionIsDenseIndex | Source/Old-Atmosphere-Patches/ldr_process_creation_1_11_0.cpp:257-258 | the inverse: dense slot k belongs to the file whose dense index is k |
| NsoHeaders.ZbicRuleAgrees | Source/Old-Atmosphere-Patches/ldr_process_creation_1_11_0.cpp:277-280 | the Zstd rule, stated slot by slot over dense indices, is the rule that only main uses it and then rtld and sdk exist |
| NsoHeaders.AllowedAgrees | Source/Old-Atmosphere-Patches/ldr_process_creation_1_10_0_to_1_10_2.cpp:247-288 | the per-header checks of the sparse form, made over all 23 slots, are those of the dense form over the present ones |
| NsoHeaders.AcceptanceAgrees | Source/Old-Atmosphere-Patches/ldr_process_creation_1_11_0.cpp:265-312 | 1.11 accepts exactly the programs that 1.10 accepts and whose only Zstd module, if any, is main beside rtld and sdk; so without Zstd both accept the same |
| NsoHeaders.PresentExactly | Source/Old-Atmosphere-Patches/ldr_process_creation_1_11_0.cpp:202-222 | browser DLLs, files 2 to 11, are looked at only with the flag, all others always |
| NsoHeaders.HeadersReadExactly | Source/Old-Atmosphere-Patches/ldr_process_creation_1_11_0.cpp:224-230 | reading succeeds exactly when each file looked at gives a whole header |
| NsoHeaders.HeaderErrorIsFirst | Source/Old-Atmosphere-Patches/ldr_process_creation_1_11_0.cpp:228-230 | otherwise the first that does not says why: too few bytes make an invalid module, an error is passed on |
| NsoHeaders.SparseAcceptedExactly | Source/Old-Atmosphere-Patches/ldr_process_creation_1_10_0_to_1_10_2.cpp:243-291 | said of the files alone, 1.10 accepts exactly: a main, rtld if there is an sdk, neither rtld nor a subsdk with the browser flag, and headers whose code can be read, whose text is at 0 and whose segments lie on pages one behind the other |
| NsoHeaders.DenseAcceptedExactly | Source/Old-Atmosphere-Patches/ldr_process_creation_1_11_0.cpp:265-312 | 1.11 accepts exactly those whose only Zstd module, if any, is main beside rtld and sdk |
| NsoLayout.GenerateSecureRandom | Source/Old-Atmosphere-Patches/ldr_process_creation_1_11_0.cpp:540-547 | the random number is coerced into 0..max, and stays as it is when it is there already |
| NsoLayout.AslrSlide | Source/Old-Atmosphere-Patches/ldr_process_creation_1_11_0.cpp:622-627 | every slide is a multiple of 2 MiB and keeps the process inside the window; without ASLR it is 0 |
| NsoLayout.EverySlideIsReached | Source/Old-Atmosphere-Patches/ldr_process_creation_1_11_0.cpp:622-627 | and every multiple of 2 MiB that does so is the slide of some random number |
| NsoLayout.MaskCutsNothing | Source/Old-Atmosphere-Patches/ldr_process_creation_1_11_0.cpp:562-572 | a module takes the next whole number of pages behind its last segment and bss; with 32-bit header fields the size mask never cuts it short, so only an empty module is refused |
| NsoLayout.OffsetsIncrease | Source/Old-Atmosphere-Patches/ldr_process_creation_1_11_0.cpp:560-588 | a later module, and the argument region, starts at or after the end of every earlier one |
| NsoLayout.SumsFitU64 | Source/Old-Atmosphere-Patches/ldr_process_creation_1_11_0.cpp:576-584 | no sum of sizes and arguments of 23 modules can wrap, so the overflow checks never fire |
| NsoLayout.SparseSumsFitU64 | Source/Old-Atmosphere-Patches/ldr_process_creation_1_10_0_to_1_10_2.cpp:556-564 | the same for the sparse loop |
| NsoLayout.ProcessInfo.DecideAddressSpaceLayout | Source/Old-Atmosphere-Patches/ldr_process_creation_1_11_0.cpp:549-645 | the outcome is exactly: empty module, too large for the window, or a finished layout at window start plus slide; the argument region is two words, twice the arguments and the buffer, rounded up to pages, and without arguments there is none |
| NsoLayout.ProcessInfo.PlaceModules | Source/Old-Atmosphere-Patches/ldr_process_creation_1_11_0.cpp:556-588 | before rebasing, slot k starts at the sum of what is in front of it, the arguments, of that size, right behind the first module |
| NsoLayout.ProcessInfo.Rebase | Source/Old-Atmosphere-Patches/ldr_process_creation_1_11_0.cpp:629-638 | rebasing shifts every module and the arguments by the chosen start and refuses nothing |
| NsoLayout.ProcessInfo.DecideSparseLayout | Source/Old-Atmosphere-Patches/ldr_process_creation_1_10_0_to_1_10_2.cpp:528-627 | the same for the sparse arrays, with the same size of the argument region; absent slots stay zero |
| NsoLayout.LayoutTiles | Source/Old-Atmosphere-Patches/ldr_process_creation_1_11_0.cpp:549-645 | all module ranges and the argument range are page-aligned and tile the code region: each of its bytes is in exactly one of them |
| NsoLayout.SizesAddUp | Source/Old-Atmosphere-Patches/ldr_process_creation_1_11_0.cpp:576-584 | the total is the sum of all module sizes and the arguments |
| NsoLayout.LayoutSucceedsExactly | Source/Old-Atmosphere-Patches/ldr_process_creation_1_11_0.cpp:573-620 | a layout succeeds exactly when no module is empty and the sizes and the arguments together fit the window; the error says which is wrong |
| NsoLayout.LayoutInWindow | Source/Old-Atmosphere-Patches/ldr_process_creation_1_11_0.cpp:620-642 | for every random number the whole layout is page-aligned and inside the chosen window |
| NsoLayout.SlotAgrees | Source/Old-Atmosphere-Patches/ldr_process_creation_1_10_0_to_1_10_2.cpp:538-569 | dense slot k has the offset and size of the sparse slot of its file |
| NsoLayout.EmptinessAgrees | Source/Old-Atmosphere-Patches/ldr_process_creation_1_10_0_to_1_10_2.cpp:550-552 | both forms refuse an empty module for the same files |
| NsoLayout.DenseRefinesSparse | Source/Old-Atmosphere-Patches/ldr_process_creation_1_11_0.cpp:549-645 | for the same files, arguments and window both layouts fail alike or have the same total |
| NsoLayout.FinishedLayoutsAgree | Source/Old-Atmosphere-Patches/ldr_process_creation_1_10_0_to_1_10_2.cpp:528-627 | in finished layouts made with the same random number the code address, the page count, the arguments and every dense slot equal their sparse counterparts |
| NsoLoading.DecompressLZ4 | Source/Old-Atmosphere-Patches/ldr_process_creation_1_11_0.cpp:670-673 | succeeds exactly when LZ4 gives as many bytes as the segment has; they are written, and nothing else |
| NsoLoading.DecompressZstd | Source/Old-Atmosphere-Patches/ldr_process_creation_1_11_0.cpp:667-669 | the same for Zstd, which is told the room up to the end of the mapping and may leave anything there behind the segment |
| NsoLoading.LoadSegment | Source/Old-Atmosphere-Patches/ldr_process_creation_1_11_0.cpp:647-676 | succeeds exactly when the sizes fit, the file reaches to the end, and the decompressor the flag names gives as many bytes as the segment has; the segment then holds those, or the bytes of the file, although the compressed form is read into the tail of the same mapping; nothing outside base..map_end changes |
| NsoLoading.LoadSegments | Source/Old-Atmosphere-Patches/ldr_process_creation_1_11_0.cpp:704-710 | no read or scratch area of a later segment touches an earlier one; the first error is reported |
| NsoLoading.ClearUnused | Source/Old-Atmosphere-Patches/ldr_process_creation_1_11_0.cpp:712-718 | the three memsets complete the image whatever was left in the gaps |
| NsoLoading.CheckSegmentHash | Source/Old-Atmosphere-Patches/ldr_process_creation_1_11_0.cpp:678-689 | the hash is taken of exactly the segment's bytes in memory |
| NsoLoading.CheckHashes | Source/Old-Atmosphere-Patches/ldr_process_creation_1_11_0.cpp:720-723 | the late hash checks see the bytes the segments were loaded with |
| NsoLoading.LoadModule | Source/Old-Atmosphere-Patches/ldr_process_creation_1_11_0.cpp:691-723 | succeeds exactly when the module's image exists, and then the module's range is that image; nothing outside its mapping changes |
| NsoLoading.InPlaceAt | Source/Old-Atmosphere-Patches/ldr_process_creation_1_11_0.cpp:763-775 | a module in place is, byte for byte, the image of its file made with the room of its own range, or for Zstd up to the end of the process |
| NsoLoading.LoadNext | Source/Old-Atmosphere-Patches/ldr_process_creation_1_11_0.cpp:763-775 | one turn of the loop adds the next module and leaves all earlier ones in place, also when it is mapped to the end of the process |
| NsoLoading.LoadEach | Source/Old-Atmosphere-Patches/ldr_process_creation_1_11_0.cpp:763-775 | at the end every module is in place, so all scratch and spill has been overwritten; otherwise the error is that of the first module that fails |
| NsoLoading.StoreArguments | Source/Old-Atmosphere-Patches/ldr_process_creation_1_11_0.cpp:777-790 | the region starts with a cleared header that holds the two sizes, the arguments follow it, and no module is disturbed |
| NsoLoading.StoredArgumentsReadBack | Source/Old-Atmosphere-Patches/ldr_process_creation_1_11_0.cpp:784-790 | at the address the layout gives, both 32-bit sizes are read back lowest byte first and the arguments stand behind the header |
| NsoLoading.LoadModules | Source/Old-Atmosphere-Patches/ldr_process_creation_1_11_0.cpp:759-798 | every module range is exactly its image and the argument region holds sizes and arguments, or the error is that of the first module that fails |
| NsoLoading.ArgumentsApart | Source/Old-Atmosphere-Patches/ldr_process_creation_1_11_0.cpp:579-587 | no module range meets the argument range, and that lies in the code region |
| NsoLoading.ZstdSparesArguments | Source/Old-Atmosphere-Patches/ldr_process_creation_1_11_0.cpp:277-280 | a module that passes the Zstd rule starts behind the arguments, so its spill cannot reach them |
| NsoLoading.LoadCheckedSegment | Source/Old-Atmosphere-Patches/ldr_process_creation_1_10_0_to_1_10_2.cpp:629-660 | the 1.10 segment loader with its immediate hash check |
| NsoLoading.LoadSparseModule | Source/Old-Atmosphere-Patches/ldr_process_creation_1_10_0_to_1_10_2.cpp:662-687 | 1.10 defines the module up to the end of bss and says nothing about the bytes behind |
| NsoLoading.InSparsePlaceAt | Source/Old-Atmosphere-Patches/ldr_process_creation_1_10_0_to_1_10_2.cpp:662-687 | a sparse slot in place is, byte for byte, the image 1.10 makes of its file |
| NsoLoading.LoadSparseModules | Source/Old-Atmosphere-Patches/ldr_process_creation_1_10_0_to_1_10_2.cpp:723-733 | all present sparse slots are in place, or the error is that of the first slot that fails |
| NsoLoading.SparseArgumentsApart | Source/Old-Atmosphere-Patches/ldr_process_creation_1_10_0_to_1_10_2.cpp:556-566 | in the sparse layout, too, no module range meets the argument range |
| NsoLoading.StoreSparseArguments | Source/Old-Atmosphere-Patches/ldr_process_creation_1_10_0_to_1_10_2.cpp:735-748 | the arguments of 1.10 are stored like those of 1.11 and disturb no module |
| NsoLoading.ModulesLoadAlike | Source/Old-Atmosphere-Patches/ldr_process_creation_1_10_0_to_1_10_2.cpp:662-687 | without Zstd one loader can load a module exactly when the other can, and the images agree on every byte up to the end of bss |
| NsoLoading.LoadersAgree | Source/Old-Atmosphere-Patches/ldr_process_creation_1_11_0.cpp:691-775 | without Zstd the two loaders accept the same programs |
| NsoLoading.FirstFailuresAgree | Source/Old-Atmosphere-Patches/ldr_process_creation_1_11_0.cpp:763-775 | without Zstd the first module to fail is the same in both |
| NsoLoading.MemoriesAgree | Source/Old-Atmosphere-Patches/ldr_process_creation_1_10_0_to_1_10_2.cpp:723-733 | what both loaders leave in memory agrees on every module up to the end of its bss |
| NsoLoading.ModulesAgreeAt | Source/Old-Atmosphere-Patches/ldr_process_creation_1_10_0_to_1_10_2.cpp:723-733 | said byte by byte |
| NsoProcess.PrepareProcess | Source/Old-Atmosphere-Patches/ldr_process_creation_1_11_0.cpp:858-865 | what stops a process before loading, exactly: the first bad header, a refused combination, the layout. Otherwise what the checks accept is all the layout and the loader rely on, and the random number puts the code inside the window |
| NsoProcess.CreateProcess | Source/Old-Atmosphere-Patches/ldr_process_creation_1_11_0.cpp:800-819 | succeeds exactly when nothing stops the preparation and every module loads, with every module and the arguments in place; otherwise the error is that of the first obstacle |
| NsoProcess.PrepareSparseProcess | Source/Old-Atmosphere-Patches/ldr_process_creation_1_10_0_to_1_10_2.cpp:816-822 | the exact outcome of the same steps in 1.10 |
| NsoProcess.CreateSparseProcess | Source/Old-Atmosphere-Patches/ldr_process_creation_1_10_0_to_1_10_2.cpp:758-777 | so is the outcome of 1.10 exact, with its memory |
| NsoProcess.PreparationsAgree | Source/Old-Atmosphere-Patches/ldr_process_creation_1_10_0_to_1_10_2.cpp:816-822 | without Zstd what stops one generation before loading stops the other, with the same error |
| NsoProcess.PrepareBoth | Source/Old-Atmosphere-Patches/ldr_process_creation_1_11_0.cpp:858-865 | run on the same files, arguments, window and random number without Zstd, both generations end alike and put code, arguments and modules at the same addresses |
| NsoProcess.ObstacleMeans | Source/Old-Atmosphere-Patches/ldr_process_creation_1_11_0.cpp:763-775 | the module that is in the way of both is in each the first that does not load |
| NsoProcess.CreateBoth | Source/Old-Atmosphere-Patches/ldr_process_creation_1_11_0.cpp:800-819 | and on the same inputs one succeeds exactly when the other does, a failure to load is at the same module, and the two memories agree on every module up to the end of its bss and on the arguments |
| IpcFormat.BufferRoundTrip | Source/Horizon-OC-Monitor/include/ipc.h:303-309 | a buffer descriptor comes back exactly when the address is below 2^40 and the size below 2^32 |
| IpcFormat.StaticRoundTrip | Source/Horizon-OC-Monitor/include/ipc.h:294-299 | a send-static comes back exactly when the address is below 2^40, the size below 2^16 and the index below 64 |
| IpcFormat.BufferWordBits | Source/Horizon-OC-Monitor/include/ipc.h:308-309 | type in bits 0-1, address bits 36-39 from bit 2 on, address bits 32-35 in bits 28-31 |
| IpcFormat.StaticWordBits | Source/Horizon-OC-Monitor/include/ipc.h:298-299 | index in bits 0-5, address bits 36-39 from bit 6 on, address bits 32-35 from bit 12 on, size in the high half |
| IpcFormat.RecvStaticReadBack | Source/Horizon-OC-Monitor/include/ipc.h:337-339 | a receive static comes back, its address from the first word and the low half of the second and its size from the high half, exactly when the address is below 2^48 and the size below 2^16 |
| IpcFormat.NumberOfWord | Source/Horizon-OC-Monitor/include/ipc.h:268-283 | counts below 2^31 survive the way into the bits of a word and back |
| IpcFormat.CountBits | Source/Horizon-OC-Monitor/include/ipc.h:268 | request type 4 in the low half of the first control word, and the four counts in four bits each from bits 16, 20, 24 and 28 on |
| IpcFormat.StaticsOutField | Source/Horizon-OC-Monitor/include/ipc.h:272-277 | the receive-static count is read back exactly when the raw size, put into the same word unmasked, adds no bit to its code of n + 2 or 0 |
| IpcFormat.RawSizeField | Source/Horizon-OC-Monitor/include/ipc.h:331 | the raw size filled in later is read back exactly when it is below 512 words |
| IpcFormat.Control1Bits | Source/Horizon-OC-Monitor/include/ipc.h:270-280 | the second control word bit by bit: raw size in nine bits, the count code with what the raw size adds to it from bit 10 on, the special mark in bit 31 |
| IpcFormat.Control2Fields | Source/Horizon-OC-Monitor/include/ipc.h:281 | pid mark in bit 0, copied handles from bit 1 on, moved ones from bit 5 on, and all three are read back |
| IpcMessage.IpcCommand.constructor | Source/Horizon-OC-Monitor/include/ipc.h:97-99 | a fresh command has empty lists |
| IpcMessage.IpcCommand.AddSendBuffer | Source/Horizon-OC-Monitor/include/ipc.h:127-133 | appends to the send buffers when it comes before the other kinds; if it comes after a receive buffer it overwrites the first of those |
| IpcMessage.IpcCommand.AddRecvBuffer | Source/Horizon-OC-Monitor/include/ipc.h:142-148 | appends to the receive buffers when no exchange buffer is there yet |
| IpcMessage.IpcCommand.AddExchBuffer | Source/Horizon-OC-Monitor/include/ipc.h:157-163 | appends to the exchange buffers and changes no other list |
| IpcMessage.IpcCommand.AddSendStatic | Source/Horizon-OC-Monitor/include/ipc.h:172-178 | writes behind the send statics, which appends to them when no receive static is there yet |
| IpcMessage.IpcCommand.AddRecvStatic | Source/Horizon-OC-Monitor/include/ipc.h:187-193 | appends to the receive statics and changes no other list |
| IpcMessage.IpcCommand.AddSendSmart | Source/Horizon-OC-Monitor/include/ipc.h:203-211 | adds a pair of which exactly one carries the data, the static when it fits the pointer buffer, in whatever order it comes; both lists grow when no later kind is there yet |
| IpcMessage.IpcCommand.AddRecvSmart | Source/Horizon-OC-Monitor/include/ipc.h:221-229 | the same for receiving |
| IpcMessage.IpcCommand.SendPid | Source/Horizon-OC-Monitor/include/ipc.h:235-237 | sets the pid mark and nothing else |
| IpcMessage.IpcCommand.SendHandleCopy | Source/Horizon-OC-Monitor/include/ipc.h:245-247 | appends to the copied handles when no moved handle is there yet |
| IpcMessage.IpcCommand.SendHandleMove | Source/Horizon-OC-Monitor/include/ipc.h:255-257 | appends to the moved handles and changes no other list |
| IpcMessage.IpcCommand.SendObjectId | Source/Horizon-OC-Monitor/include/ipc.h:640-642 | appends an object id |
| IpcMessage.IpcCommand.WriteControl | Source/Horizon-OC-Monitor/include/ipc.h:266-291 | control words and handles; the two pid words are skipped, not written |
| IpcMessage.IpcCommand.WriteStatics | Source/Horizon-OC-Monitor/include/ipc.h:293-300 | each send static as its two words, and nothing else changed |
| IpcMessage.IpcCommand.WriteBuffers | Source/Horizon-OC-Monitor/include/ipc.h:302-310 | each buffer as its three words, and nothing else changed |
| IpcMessage.IpcCommand.WriteTable | Source/Horizon-OC-Monitor/include/ipc.h:318-325 | the receive sizes two to a word, sizes above 16 bits as 0 |
| IpcMessage.IpcCommand.WriteRecvList | Source/Horizon-OC-Monitor/include/ipc.h:333-340 | each receive static as its two words |
| IpcMessage.IpcCommand.PrepareHeader | Source/Horizon-OC-Monitor/include/ipc.h:265-343 | for a payload of any size every part of the message stands at its offset, the payload pointer is the next 16-byte boundary, and words the message does not own are untouched |
| IpcMessage.RecvListReadBack | Source/Horizon-OC-Monitor/include/ipc.h:333-340 | in a prepared message receive static i comes back from its two words in the receive list exactly when its address is below 2^48 and its size below 2^16 |
| IpcMessage.TableReadBack | Source/Horizon-OC-Monitor/include/ipc.h:318-325 | the 16-bit number i of the table is the size of receive static i, or 0 when that has more bits |
| IpcMessage.UnownedWords | Source/Horizon-OC-Monitor/include/ipc.h:283-316 | the two pid words, the payload and everything behind the message are as they were |
| IpcMessage.PayloadIsFree | Source/Horizon-OC-Monitor/include/ipc.h:312-316 | filling in payload and padding changes no part of the message |
| IpcParsing.PaddingRoundsUp | Source/Horizon-OC-Monitor/include/ipc.h:312-313 | the padding the writer adds ends where the reader rounds up to |
| IpcParsing.Parse | Source/Horizon-OC-Monitor/include/ipc.h:404-497 | for arbitrary words: at most eight entries of each list are kept, longer lists are skipped in full, and no more than the first 89 words are read |
| IpcParsing.TypeAndSizeRead | Source/Horizon-OC-Monitor/include/ipc.h:413-415 | of arbitrary words: the command type is the low half of the first, the raw size four times the low nine bits of the second |
| IpcParsing.PidReadBack | Source/Horizon-OC-Monitor/include/ipc.h:425-429 | a process id is found exactly when both marks are set, and is two words, the low one first |
| IpcParsing.ListsLie | Source/Horizon-OC-Monitor/include/ipc.h:431-466 | where handles and statics lie for the counts in the control words: at most eight are read, the next list starts behind all of them |
| IpcParsing.BuffersLie | Source/Horizon-OC-Monitor/include/ipc.h:468-472 | the counts of the three kinds of buffers |
| IpcParsing.HandlesRead | Source/Horizon-OC-Monitor/include/ipc.h:440-446 | the handles are the words there; the first ones, as many as were copied, are marked as copied |
| IpcParsing.BuffersRead | Source/Horizon-OC-Monitor/include/ipc.h:479-493 | at most eight buffers from their three words each, first those sent, then those received, then those exchanged |
| IpcParsing.StaticsReadBack | Source/Horizon-OC-Monitor/include/ipc.h:456-463 | the send statics read are the statics written exactly when each of them fits |
| IpcParsing.BuffersReadBack | Source/Horizon-OC-Monitor/include/ipc.h:479-485 | the same for the buffers |
| IpcParsing.PlanReadBack | Source/Horizon-OC-Monitor/include/ipc.h:404-481 | all counts and positions the reader works out from the control words are the writer's, whatever becomes of the two that share a word with the raw size |
| IpcParsing.SizesReadBack | Source/Horizon-OC-Monitor/include/ipc.h:331 | of those two, the raw size comes back exactly when it is below 512 words, and the receive-static count exactly when the raw size adds no bit to it, as it never does below 1024 words |
| IpcParsing.RoundTrip | Source/Horizon-OC-Monitor/include/ipc.h:265-343 | parsing a prepared message recovers the type, the handles with their copied marks, the buffer directions and the payload address for every command within the limits and every payload, the descriptors exactly when every one of them fits, and the raw size exactly when it is below 512 words |
| IpcDomain.PutThenJoin | Source/Horizon-OC-Monitor/include/ipc.h:662-663 | a word stored at any byte is read back there |
| IpcDomain.StoreKeepsEarlier | Source/Horizon-OC-Monitor/include/ipc.h:662-663 | storing the next id does not disturb the ids before it, also when ids straddle words |
| IpcDomain.StoreKeepsByte | Source/Horizon-OC-Monitor/include/ipc.h:662-663 | storing a word at any byte changes its own four bytes only |
| IpcDomain.WordAtBytes | Source/Horizon-OC-Monitor/include/ipc.h:662-663 | the word read at any byte is the four bytes from there on, lowest first |
| IpcDomain.DomainPartsFit | Source/Horizon-OC-Monitor/include/ipc.h:652-663 | header, payload and ids end before the table of receive sizes for every payload size |
| IpcDomain.HeaderReadBack | Source/Horizon-OC-Monitor/include/ipc.h:655-657 | type and id count are read back from the domain header for every payload, its 16-bit length exactly when it is below 2^16 |
| IpcDomain.PrepareHeaderForDomain | Source/Horizon-OC-Monitor/include/ipc.h:651-665 | for a payload of any size the message around it is prepared, the domain header is right in front of it and the ids right behind it, and every other byte the message does not own, payload included, is untouched |
| IpcDomain.DomainPartsAre | Source/Horizon-OC-Monitor/include/ipc.h:655-664 | the object id, two words of zero, and the ids behind the payload |
| IpcDomain.PayloadIsKept | Source/Horizon-OC-Monitor/include/ipc.h:651-665 | a payload that is there already stays, and so do the bytes behind the ids and behind the message |
| IpcDomain.HeaderWithinReach | Source/Horizon-OC-Monitor/include/ipc.h:479-481 | however the counts are chosen, the domain header lies within 207 words of the start of the area |
| IpcDomain.ParseDomainRequest | Source/Horizon-OC-Monitor/include/ipc.h:672-702 | type check, clamped id count, limit check and ids in that order, for any words |
| IpcDomain.RequestExactly | Source/Horizon-OC-Monitor/include/ipc.h:679-699 | type 1 sends, type 2 closes, any other is unknown; at most eight ids are read, and a list that reaches byte 0x100 of the area is refused; otherwise the object id, the ids and the payload sixteen bytes on |
| IpcDomain.DomainRoundTrip | Source/Horizon-OC-Monitor/include/ipc.h:651-702 | a domain message whose length fits its field is understood exactly when it ends below offset 0x100; then object id, id list and payload position come back |
| MemTesterProtocol.MainKeepsInv | Source/MemTesterNX/source/main.c:420-490 | every step of main keeps the barrier's invariant, for any number of workers and at least one test |
| MemTesterProtocol.WorkerKeepsInv | Source/MemTesterNX/source/main.c:138-182 | so does every step of a worker, whatever its test returns |
| MemTesterProtocol.ReachableInv | Source/MemTesterNX/source/main.c:136-183 | the invariant holds in every state of every interleaving |
| MemTesterProtocol.JobOfExactly | Source/MemTesterNX/source/main.c:144-176 | the job of round r is r modulo (tests + 1), less one: -1, 0, .., tests - 1, and again |
| MemTesterProtocol.Handshake | Source/MemTesterNX/source/main.c:138-182 | main announces a loop with -2 and then publishes the number of each job; a worker waits for -2, then for the number of its own next job, and reports 1 or -1 |
| MemTesterProtocol.WorkersInLockStep | Source/MemTesterNX/source/main.c:144-182 | a worker that runs its n-th test runs job n modulo (tests + 1), less one, and every worker has succeeded in all jobs before it, which were those numbers in order, and main has taken the reports |
| MemTesterProtocol.LockStepMeans | Source/MemTesterNX/source/main.c:136-183 | the same with the numbers spelt out |
| MemTesterProtocol.ReportsAreConserved | Source/MemTesterNX/source/main.c:434-452 | each success of a worker is either consumed once or still waiting in its report word |
| MemTesterProtocol.PassedMeansAllReturnedZero | Source/MemTesterNX/source/main.c:457-489 | the r-th job main passes is r modulo (tests + 1), less one, and every worker returned 0 for it in that very round |
| MemTesterProtocol.LoopsAreWhole | Source/MemTesterNX/source/main.c:420-489 | whenever main starts a loop, the jobs passed so far are whole loops |
| MemTesterProtocol.LoopsAreComplete | Source/MemTesterNX/source/main.c:420-489 | and each of these loops is -1, 0, .., tests - 1, in that order |
| MemTesterProtocol.CurrentJob | Source/MemTesterNX/source/main.c:431-464 | inside a loop the number of jobs passed says which job main is at |
| MemTesterProtocol.ExitMeansFailure | Source/MemTesterNX/source/main.c:441-446 | main gives up only when the worker it names failed the current job, which is the one that follows the jobs passed |
| MemTesterProgress.NoTestsBreakLockStep | Source/MemTesterNX/source/main.c:144-163 | with an empty test table, which neither table of the program is, a worker starts its next job although its report was not consumed |
| MemTesterProgress.LockStepExactly | Source/MemTesterNX/source/main.c:136-183 | all runs are in lock-step exactly when there is a test or no worker |
| MemTesterProgress.StuckMeansMissed | Source/MemTesterNX/source/main.c:138-140 | a run that has not ended is stuck only when main waits in the first round for a worker that missed -2 |
| MemTesterProgress.Progress | Source/MemTesterNX/source/main.c:138-182 | if no worker has missed -2, some step is possible |
| MemTesterProgress.NeverStuckOnceObserved | Source/MemTesterNX/source/main.c:138-182 | once every worker has seen -2 a run goes on until main exits |
| MemTesterProgress.MissedForever | Source/MemTesterNX/source/main.c:423-440 | a worker that missed -2 stays behind for good and main never passes a job |
| MemTesterProgress.CanGetStuck | Source/MemTesterNX/source/main.c:423-432 | for any number of workers such a deadlocked run exists |
| MemTesterDeadlock.DeadlockExactly | Source/MemTesterNX/source/main.c:138-140 | from any state of a run that has not ended, some schedule leads to a deadlock exactly if a worker has not seen -2 and no worker in front of it has failed |
| MemTesterDeadlock.Drain | Source/MemTesterNX/source/main.c:420-452 | from such a state, letting everyone but that worker run with passing tests leads there |
| MemTesterProgress.EveryStepCounts | Source/MemTesterNX/source/main.c:423-489 | every step that changes anything ends the round or leaves less of it to do |
| MemTesterProgress.RoundsEnd | Source/MemTesterNX/source/main.c:423-489 | however the threads interleave, main passes a job within 7N + 4 such steps, or gives up |
| MemTesterPatterns.CellFromTwoReads | Source/MemTesterNX/source/tests.c:260-285 | a cell with stuck bits is determined by what it makes of a word and of its complement |
| MemTesterPatterns.CompareRegions | Source/MemTesterNX/source/tests.c:47-67 | returns 0 exactly when the halves read the same |
| MemTesterPatterns.UpdateTest | Source/MemTesterNX/source/tests.c:167-246 | xor, sub, mul, div, or, and: both halves go through the operation, and halves that are alike and equal stay equal |
| MemTesterPatterns.PatternTest | Source/MemTesterNX/source/tests.c:248-460 | a pattern test returns 0 exactly when the halves agree on every word it writes |
| MemTesterPatterns.PassesAre | Source/MemTesterNX/source/tests.c:248-460 | 64 or 128 passes, divided by the dividend twice; Bit Flip eight times as many; one pass for the tests without a loop |
| MemTesterPatterns.RandomValueExactly | Source/MemTesterNX/source/tests.c:149-165 | Random Value passes exactly if the partners agree on the word drawn for them |
| MemTesterPatterns.SequentialIncrementExactly | Source/MemTesterNX/source/tests.c:248-258 | Sequential Increment exactly if they agree on the word drawn plus their index |
| MemTesterPatterns.BlockSequentialExactly | Source/MemTesterNX/source/tests.c:314-337 | Block Sequential exactly if they agree on n times 0x0101010101010101 for n below 64, or below its passes |
| MemTesterPatterns.WalkingZeroesExactly | Source/MemTesterNX/source/tests.c:339-366 | Walking Zeroes exactly if they agree on 1 << k for every k below 64, or below its passes |
| MemTesterPatterns.WalkingOnesExactly | Source/MemTesterNX/source/tests.c:368-395 | Walking Ones exactly if they agree on the complements of those |
| MemTesterPatterns.TestWalkingZeroes | Source/MemTesterNX/source/tests.c:339-366 | without a dividend, 0 exactly when the partners agree on all 64 single bits, -1 otherwise |
| MemTesterPatterns.TestWalkingOnes | Source/MemTesterNX/source/tests.c:368-395 | the same for the complements |
| MemTesterPatterns.BitIs | Source/MemTesterNX/source/tests.c:351-354 | bit k, shifted one place at a time, is 1 << k |
| MemTesterPatterns.SolidBitsWords | Source/MemTesterNX/source/tests.c:260-285 | Solid Bits writes all ones where index and pass have an even sum, 0 elsewhere |
| MemTesterPatterns.CheckerboardWords | Source/MemTesterNX/source/tests.c:287-312 | Checkerboard 0x55.. and 0xAA.. in the same way |
| MemTesterPatterns.BitFlipWords | Source/MemTesterNX/source/tests.c:432-460 | Bit Flip the complement of bit j/8 in even passes and the bit in odd ones, and the complement of that to odd cells |
| MemTesterPatterns.BitSpreadWords | Source/MemTesterNX/source/tests.c:397-430 | Bit Spread bits k and k + 2 on the way up and on the way down, and the complement to odd cells |
| MemTesterPatterns.ComplementaryPassesDecide | Source/MemTesterNX/source/tests.c:265-282 | a test that writes a word and its complement to every cell finds every difference in stuck behaviour |
| MemTesterPatterns.ExactTests | Source/MemTesterNX/source/tests.c:260-312 | Solid Bits, Checkerboard and Bit Flip with at least two passes return 0 exactly when no cell differs from its partner |
| MemTesterPatterns.RunTests | Source/MemTesterNX/source/main.c:162-181 | the worker's loop over any table that starts by writing a pattern never fails on halves that are alike |
| MemTesterPatterns.TableIs | Source/MemTesterNX/source/main.c:91-112 | the fifteen tests in their order |
| MemTesterPatterns.RunWholeTable | Source/MemTesterNX/source/main.c:91-112 | no false alarms whatever the memory holds and is drawn; with two passes of Solid Bits the table passes exactly when the halves have the same stuck behaviour |
| MemTesterPatterns.Dividends | Source/MemTesterNX/source/main.c:270-284 | the menu's dividends 1, 4 and 16 give 64, 4 and 0 passes |
| MemTesterPatterns.SoundMemoryIsAlike | Source/MemTesterNX/source/tests.c:47-67 | memory without stuck bits meets the condition |
| MemTesterAddresses.PatternsDiffer | Source/MemTesterNX/source/tests.c:81-82 | no address of the buffer is the complement of another, so no two words of a pass are equal |
| MemTesterAddresses.LastIsIdentityExactly | Source/MemTesterNX/source/tests.c:69-102 | each word is the last written to its cell exactly when no two words share one |
| MemTesterAddresses.TestStuckAddress | Source/MemTesterNX/source/tests.c:69-102 | returns 0 exactly when no two words of the buffer share a cell, if it makes a pass at all |
| MemTesterAddresses.AlignBlock | Source/MemTesterNX/source/main.c:394-402 | the aligned block starts on a page and ends with the allocation exactly when that holds the bytes skipped, as it does from one page on; otherwise the size wraps |
| MemTesterAddresses.HalvesAreDisjoint | Source/MemTesterNX/source/main.c:169-170 | each half has size / 16 words, the second starts half the size behind the first, and both are disjoint and inside the block; the second is aligned exactly for sizes at most 1 above a multiple of 16 |
| StartGate.MainKeepsInv | Source/TinyMemBenchNX/source/main.c:96-131 | every step of parallel_init, the fill-in, parallel_run and the joins keeps the gate's invariant |
| StartGate.WorkerKeepsInv | Source/TinyMemBenchNX/source/main.c:76-94 | so does every step of a worker |
| StartGateRuns.StepKeepsInv | Source/TinyMemBenchNX/source/main.c:86-87 | so does every wakeup without a signal |
| StartGateRuns.NoStaleRead | Source/TinyMemBenchNX/source/main.c:443-451 | in every run a worker reads, after parallel_run opened the gate, its four fields in order as main has filled them in this round, and has read all four when it starts its work |
| StartGateRuns.AllHaveCheckedIn | Source/TinyMemBenchNX/source/main.c:126-130 | when parallel_init has returned, every worker has decremented the counter |
| StartGateRuns.MutualExclusion | Source/TinyMemBenchNX/source/main.c:80-89 | at most one thread is inside the mutex |
| StartGateRuns.NoDeadlock | Source/TinyMemBenchNX/source/main.c:76-131 | no wakeup is lost: in every state of every run some thread can go on without being woken for no reason |
| StartGateRuns.EveryStepCounts | Source/TinyMemBenchNX/source/main.c:76-131 | every step leaves less of the round to do; a needless wakeup adds two steps |
| StartGateRuns.RoundsEnd | Source/TinyMemBenchNX/source/main.c:441-453 | a round ends within 20n + 11 steps and three more for each needless wakeup |
| StartGateRuns.SignalledRoundsEnd | Source/TinyMemBenchNX/source/main.c:441-453 | within 20n + 11 steps when there is none |
| NonAliasedBuffers.Offset | Source/TinyMemBenchNX/source/main.c:611-642 | the four masked patterns are four fixed offsets |
| NonAliasedBuffers.AlignUp | Source/TinyMemBenchNX/source/main.c:140-143 | the next multiple of 1 MiB |
| NonAliasedBuffers.BlockIsNeededExactly | Source/TinyMemBenchNX/source/main.c:623-625 | the size asked of malloc, summed in 32 bits, is what the buffers need exactly when that is below 2^31 |
| NonAliasedBuffers.EachSizeCounts | Source/TinyMemBenchNX/source/main.c:614-625 | null pointers and negative sizes ask for nothing beside the padding of nine megabytes |
| NonAliasedBuffers.LargeSizesWrap | Source/TinyMemBenchNX/source/main.c:623-625 | one request of 2^31 - 1 bytes makes the sum negative, four wrap it round to 9 MiB less four bytes |
| NonAliasedBuffers.SizesFit | Source/TinyMemBenchNX/source/main.c:628-647 | buffers that lie in order are together no longer than what they lie in |
| NonAliasedBuffers.AllocFour | Source/TinyMemBenchNX/source/main.c:604-650 | requested buffers lie in order, disjoint, each at its own residue, within what they need with 3 MiB to spare; they lie in a block malloc can have given exactly when the sum does not wrap; null pointers get nothing |
| NonAliasedBuffers.NeverAliased | Source/TinyMemBenchNX/source/main.c:604-649 | bytes at the same index of two buffers never agree modulo 1 MiB |
| RegisterAccess.SetBit | Source/Atmosphere-Patches/secmon_smc_register_access.cpp:32-40 | setting a bit changes exactly that bit |
| RegisterAccess.SetRegisterTableAllowed | Source/Atmosphere-Patches/secmon_smc_register_access.cpp:24-50 | the assumptions hold exactly for an aligned register in the table with nothing at or behind it, and then exactly that register is added |
| RegisterAccess.BuildRawTable | Source/Atmosphere-Patches/secmon_smc_register_access.cpp:24-50 | a list builds exactly when it is aligned, in range and strictly increasing, and the table then holds exactly the list |
| RegisterAccess.GetReducedAccessTableInfo | Source/Atmosphere-Patches/secmon_smc_register_access.cpp:52-68 | finds the first and last bytes in use; an empty table stops the build |
| RegisterAccess.MakeAccessTable | Source/Atmosphere-Patches/secmon_smc_register_access.cpp:71-89 | the reduced table leaves out no register, and its address is moved by the bytes trimmed in front, both cut to 32 bits |
| RegisterAccess.IsAccessAllowed | Source/Atmosphere-Patches/secmon_smc_register_access.cpp:116-138 | answers from the bit of the register; the range check alone keeps the index in the table, so the second check never refuses |
| RegisterAccess.LookupAsksTheList | Source/Atmosphere-Patches/secmon_smc_register_access.cpp:67-138 | for a table that ends below 2^32, trimming and rebasing change no answer: an address is allowed exactly if its register is in the list |
| RegisterAccess.LastIsRefused | Source/Atmosphere-Patches/secmon_smc_register_access.cpp:85-118 | a table that reaches 2^32 refuses its own last register, because the end of its range wraps |
| RegisterAccess.AsksTheListExactly | Source/Atmosphere-Patches/secmon_smc_register_access.cpp:67-138 | so every address is answered as the list says exactly when the table ends below 2^32 |
| RegisterAccess.TableSpansTheList | Source/Atmosphere-Patches/secmon_smc_register_access.cpp:73-88 | the reduced table runs from the first to the last register of the list, and its size is what 32 bits leave of that span |
| RegisterAccess.BuildAccessTable | Source/Atmosphere-Patches/secmon_smc_register_access.cpp:24-89 | the build succeeds exactly for well-formed non-empty lists whose span, in 32 bits, is at most 0x1000, and every address is then answered as the list says exactly when the table ends below 2^32 |
| ResolutionMerge.QSort | Source/Horizon-OC-Monitor/source/Utils.hpp:239-242 | the same slots by falling calls, ties in any order |
| ResolutionMerge.MergeRenders | Source/Horizon-OC-Monitor/source/modes/Full.hpp:540-562 | each live render entry with the larger count of the first viewport entry of its key |
| ResolutionMerge.MergeViewports | Source/Horizon-OC-Monitor/source/modes/Full.hpp:563-584 | each live viewport entry whose key the renders did not bring, up to eight slots |
| ResolutionMerge.Merge | Source/Horizon-OC-Monitor/source/modes/Full.hpp:535-585 | the sorted output is the first eight of the merged list and empty slots |
| ResolutionMerge.DistinctExactly | Source/Horizon-OC-Monitor/source/modes/Full.hpp:540-584 | before it is cut to eight, the merged list has distinct keys exactly when the render calls have and every key that the viewport calls list twice is a render key |
| ResolutionMerge.MergedIsUnion | Source/Horizon-OC-Monitor/source/modes/Full.hpp:540-584 | with distinct keys the list is exactly the union of the keys, each with the largest count |
| ResolutionMerge.MergedKeys | Source/Horizon-OC-Monitor/source/modes/Full.hpp:540-584 | merging loses no key and makes none up |
| ResolutionMerge.OutputIsUnion | Source/Horizon-OC-Monitor/source/modes/Full.hpp:535-585 | when the list has distinct keys the output has entries of the union by falling calls, no key twice, and as many as there are keys, up to eight |
| ResolutionMerge.OutputIsWholeUnionExactly | Source/Horizon-OC-Monitor/source/modes/Full.hpp:535-585 | all of the union is shown exactly when the inputs have no more than eight keys |
| ResolutionMerge.RenderKeysAreShown | Source/Horizon-OC-Monitor/source/modes/Full.hpp:540-562 | every render key is shown, however many keys the viewport calls bring |
| ResolutionMerge.OutputDistinctExactly | Source/Horizon-OC-Monitor/source/modes/Full.hpp:535-585 | no key is shown twice exactly when the render calls have distinct keys and, whenever the sorted viewport calls list again a key no render call has, the eight slots are full before they come to it |
| ResolutionMerge.FullRendersHideRepeats | Source/Horizon-OC-Monitor/source/modes/Full.hpp:560-561 | eight render entries of different keys leave no room for a viewport key that is listed twice |
| ResolutionMerge.RepeatsAreShown | Source/Horizon-OC-Monitor/source/modes/Full.hpp:554-583 | a render key listed twice is always shown twice, a viewport key listed twice is when there are no render calls |
| ResolutionMerge.KeysShownTwice | Source/Horizon-OC-Monitor/source/modes/Full.hpp:535-585 | eight slots, on either side, whose output shows a resolution twice |
| KeyCombo.Overlay.IsKeyComboPressed | Source/Horizon-OC-Monitor/source/Utils.hpp:1111-1133 | true exactly when every key of the combo is down or held and at least one is down, and fixHiding is set exactly then |
| KeyCombo.Overlay.IsKeyComboPressed2 | Source/Horizon-OC-Monitor/source/Utils.hpp:1142-1164 | the lowest-bit walk ends and gives the same answer, key by key, for every combo, held and down, the empty combo included |
| KeyCombo.MaskTestMeans | Source/Horizon-OC-Monitor/source/Utils.hpp:1115-1124 | the masks say what is asked of each key |
| KeyCombo.LowestBitIsKey | Source/Horizon-OC-Monitor/source/Utils.hpp:1149 | the expression picks one bit that is set |
| KeyCombo.WalkMeans | Source/Horizon-OC-Monitor/source/Utils.hpp:1148-1163 | the walk from any set of keys still required answers whether all of them are down or held and one is down |

## Left out

- Mounting, metadata and signature checks, the process-creation calls, permissions, and the embedded, IPS, PCV and PTM patches: they are foreign to the loader or not in the repository; patches count as absent.
- LZ4, Zstd and SHA-256 are functions of the bytes they are given; Zstd may also write anything up to the end of its mapping.
- The NSO flag bits are named booleans, because their values are not in the repository; the named header fields and `segments[]` are one set of fields.
- NsoLoading.StoreArguments: the length of the `ProgramArguments` header and the places of its two size fields are a parameter, because the type is not in the repository; the region behind the arguments keeps what the fresh memory held.
- NsoProcess.CreateBoth: without Zstd, which 1.10 does not know; the error of a module that fails may differ, exactly as `NsoFormat.SameErrorExactly` says, and 1.10 leaves the bytes between bss and the end of the page undefined.
- The 1.9.5 loader lacks the extent checks the proofs rest on, so nothing is said about it.
- IpcDomain.DomainRoundTrip: asks that the payload length fits the 16 bits of its field; beyond that the header gives another length (`IpcDomain.HeaderReadBack`) and the ids are looked for elsewhere.
- IpcMessage.IpcCommand.PrepareHeader: asks for memory that holds the message, since a C program has no other; the builders ask for room in the eight entries of each array, which the code leaves to its callers.
- IpcParsing.RoundTrip: asks that the raw size stays below 2^31 words, because bit 31 of its word marks the special header.
- `InMessageLength` of a parsed domain request is never set by the code and has no counterpart; responses, sessions and services of the IPC layer are left out.
- MemTesterProgress.Progress: that a worker sees -2 in time is a hypothesis, since main may set -2 and -1 between two polls; when a deadlock can follow is proved exactly.
- Each test of a MemTester worker is one step that ends with any result; that tests terminate is proved for the tests that are modelled.
- `*p1++ = *p2++ = v` stores v in both places; data races, caching and reordering of the C code are not modelled.
- MemTesterPatterns.PatternTest: the words of the four passes of Bit Spread that shift by 64 or 65, which C leaves undefined, are a parameter.
- The stress tests of MemTester, which run on memcpy, memset and memcmp, and the loop that shrinks a failed allocation.
- Timing, statistics, the copy and fill kernels of TinyMemBench, the first fill of the allocated block, and failures of thread creation; the mutex and the condition variables are those of POSIX threads, with no fairness.
- NonAliasedBuffers.AlignUp: rounds by division, which is what the mask does for a power of two on addresses that do not wrap.
- NonAliasedBuffers.AllocFour: takes the wrapped sum for what an overflowing sum of `int`s gives, which C leaves undefined.
- RegisterAccess.IsAccessAllowed: virtual addresses, the list of tables it is called for, the concrete bases and the generated register lists are left out.
- ResolutionMerge.QSort: the comparison never reports equality, which qsort does not allow; the model takes any order by falling calls.
- ResolutionMerge.OutputIsUnion: asks for what makes the keys of the merged list distinct; with a key listed twice the code lists both entries, and which keys are shown twice is said by `ResolutionMerge.OutputDistinctExactly`.
- The swap of the two top resolutions after the merge, drawing, settings, polling, and the copies of the merge in other overlay modes.
- The memory layout constants and the one-step dispatch of the secure monitor, which evaluation settles.
