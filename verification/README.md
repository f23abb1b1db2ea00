# A verified model of a small teaching kernel

The kernel runs one process at a time. A process starts another with `os_run` and waits until the
child calls `os_exit`, so the processes form a call stack. The kernel keeps that stack in four
mutable structures: process slots taken from a block pool, whose free list uses the same first word
of a slot as the `prev` pointer of a live process; a mark-and-release heap for programs and stacks;
the register sets saved at each call; and `curp`. The project models those structures as they are
updated, proves that they always stand for an abstract call stack, and proves what that stack
promises: calls nest, memory is shared out exactly, a failed call changes nothing.

Around it are modelled the parts of the repository with the most intricate logic of their own: the
archive walk and the ELF loader, the carving and locking of the host's address space, in-place
tokenising and the shell's nested use of it, `vsnprintf`, the packing of arguments, and the
trampoline that calls a function in an interrupted context.

## Layout

| file | part of the system |
|---|---|
| `Bits.dfy` | `align`'s 32-bit mask arithmetic, conversions to `int` |
| `Pools.dfy` | the block pool: never-used region, intrusive free list, histories of calls |
| `Bytes.dfy`, `Archive.dfy`, `Elf.dfy` | bytes and the C byte loops; the cpio archive; the ELF headers |
| `Registers.dfy` | register sets, saving and restoring them |
| `CallStack.dfy` | the abstract machine: system calls on a stack of frames, and its invariant |
| `NestedCalls.dfy` | whole runs of the machine: nesting, failure, tiling of the memory |
| `Kernels.dfy` | the kernel's own state as a class, refining the machine |
| `Programs.dfy` | from a file in the archive to a program in memory |
| `Holes.dfy`, `Protection.dfy` | the recorded host mappings; opening and locking them |
| `Hosts.dfy` | the kernel inside its host: locking around every trap of a run |
| `Tokens.dfy`, `Shell.dfy` | `strtok_r` and its helpers; one turn of the shell |
| `Format.dfy` | `vsnprintf` |
| `Getargv.dfy` | `sys_getargv` and the string functions it uses |
| `Trampoline.dfy` | `ctx_call_setup`, `ctx_push`, `ctx_call_end`, `tramptramp` |
| `Options.dfy`, `Strings.dfy` | a value that may be missing; C strings |

## How to read the model

* `kernel/ksys.c` is in the repository with unresolved merge markers. The model follows the `pr/3`
  side: it is the one the callers in the same file and `kernel/proc.h` fit.
* The kernel state is the class `Kernels.Kernel`. `Refines(m, regs)` says which abstract machine `m`
  it stands for; every operation takes such an `m` as a ghost argument and ends in a state that
  refines the machine's own step. The machine is a value, so that runs of it can be reasoned about:
  `Handle` carries a whole run of events over to the class.
* A user program is an arbitrary change of registers and of the memory exit codes are stored in
  (`User`), or a trap (`Trap`). The string at `argv[0]` is an input of the trap.
* `hal_halt` is the final state `Halted`. `load` does not look at what `alloc` returned before it
  writes: a write or read outside the memory it was given is the final state `Faulted`, and
  `Fits` is the exact condition under which that does not happen.
* `execbufp == NULL` means that nothing is allocated, so the heap top is then the start of the
  memory. This is why the first process can keep a NULL mark.
* The code and the usual contracts of the C library differ in places; the model follows the code.
  `strcpy` copies no terminator. `vsnprintf` drops whole pieces and keeps two characters less than
  its size. `align` keeps only the low 32 bits. `sys_getargv` compares the count with the vector's
  size only after it has stored a pointer; the model's vector has exactly the words the caller says,
  and a store into the word behind them is a result of its own.
* Undefined behaviour that has an obvious machine result is given that result: shifts and negations
  of an `int` wrap around, and a negative call result fills the low half of RAX.

## Results

* **Refinement over whole runs** (`Kernels.Kernel.Handle`, `KernelStart`): whatever sequence of
  successful and failed calls, exits and user steps follows, the concrete state is the one of the
  abstract machine. `SlotsShared` says what that means for the slots: the `prev` chain from `curp`,
  the free list and the never-used slots share out all slots, each list without repetition.
* **Nested calls** (`NestedCalls.NestedCall`, `ReturnExists`): between a successful `os_run` and the
  exit that comes back to its depth anything may happen above; the caller then resumes with the
  registers of its trap, RIP two further and RAX zero, and frames, heap top and slots as before. The
  caller runs again in no other way.
* **Loading end to end** (`Programs.ProgramLoaded`, `ProgramRefused`, `NoProgram`): for an archive as
  an archiver writes it, what `load` makes of a name, when it crashes, and every byte of the memory
  after it. `Kernels.Kernel.SysRun` writes no other memory.
* **Exact tiling** (`NestedCalls.MemoryIsShared`, `OneRegion`): in every reachable state each address
  up to the heap top is in exactly one program or stack.
* **Locking over whole runs** (`Hosts.Start`, `HandleProtected`, `TrapsProtect`): from the list of
  mappings on, the kernel run inside the handler that opens and locks the host's pages leaves, after
  every trap, each page of the table locked, the handler's own pages as they were, and the program
  and stack of whichever process now runs open.
* **Exact conditions for what can fail**, each with an input:
  `align` rounds up if and only if the sum stays below 2^32 (`Bits.AlignTooLarge`). When no
  assert fires, the pieces are exact if and only if no recorded mapping has two holes or one reaching
  into it from below (`Holes.TwoHoles`, `HoleOverStart`); the table, whose sizes have 32 bits, then
  covers exactly what the lines say if and only if every piece is smaller than 2^32
  (`Holes.LargeMapping`) and no line without a name that has something outside the holes comes behind
  a skipped one: it keeps that one's name (`Holes.BehindLibpthread`). `%d` reads back if and only if the value is not the least int
  (`Format.LeastInt`). The text of
  `vsnprintf` stays inside its size if and only if that is not 0 (`Format.SizeZero`). `sys_getargv`
  stores a pointer behind its vector if and only if there are more strings than words and one too
  many fits the buffer (`Getargv.SeventeenArguments`: as every program is started, 17 arguments are
  enough). A packed argument reads back if and only if the character after it was a terminator
  already (`Getargv.NotTerminated`). The shell's line is a string if and only if less than its buffer was read or a terminator
  is in it (`Shell.FullLine`).
* **References of their own**: tokens are exactly the maximal delimiter-free runs; the archive walk
  finds the first file of a name in what an archiver writes; the ELF reader reads what a file laid out
  as the gABI says means; formatted text is the longest run of whole pieces that fits.

## Model

| member | source | states |
|---|---|---|
| Bits.BitAndDigits | kernel/util.h:22 | the recursive `&` used for the mask is the digit-wise conjunction |
| Bits.AlignValue | kernel/util.h:21-23 | `align` with a mask of k ones keeps the low 32 bits of the 64-bit sum and clears the lowest k of them |
| Bits.AlignRoundsUpIff | kernel/util.h:21-23 | the result is the least multiple of 2^k not below v if and only if v plus the mask is below 2^32 |
| Bits.AlignTooLarge | kernel/util.h:21-23 | the largest 32-bit value is rounded to 0 |
| Pools.Pool.constructor | kernel/pool.c:6-12 | a new pool is valid, with every block never used and none held |
| Pools.Pool.Alloc | kernel/pool.c:14-28 | the result and the new state are those of the pool's specification; no block's first word is written |
| Pools.Pool.Free | kernel/pool.c:30-32 | the block's first word becomes the old list head, and the block the first of the free list |
| Pools.Pool.SetWord | kernel/proc.h:6 | a user may write the first word of a block it holds without disturbing the free list |
| Pools.LinkedUnique | kernel/third-party/queue.h:267-270 | the head and the words determine the list, so a list is read in one way only |
| Pools.AllocStep | kernel/pool.c:14-28 | an allocation keeps the blocks shared out, returns one nobody holds, and NULL exactly when all are held |
| Pools.FreeStep | kernel/pool.c:30-32 | freeing a held block keeps the blocks shared out and makes one more available |
| Pools.HistoryConsistent | kernel/pool.c:6-32 | over every history of calls the free, held and never-used blocks partition all blocks, and the pool's live set is what the history says is held |
| Pools.NextAlloc | kernel/pool.c:14-28 | after any history the next result is `mem + k*membsz` for a k in range and held by nobody, or NULL exactly when every block is held |
| Pools.NewBlocksFirst | kernel/pool.c:15-22 | after any history, while there is a block nobody ever took, such a one is the next result |
| Pools.LastInFirstOut | kernel/pool.c:14-32 | with no never-used block left, freed blocks come out in reverse order, and taking them all restores the pool |
| Bytes.Memset | libc/string.c:73-79 | exactly n bytes from p are set, nothing else changes |
| Bytes.Memcpy | libc/string.c:81-89 | exactly the n source bytes are copied to p, nothing else changes |
| Bytes.Strcmp | libc/string.c:5-11 | the loop's verdict on two strings, or that it needs a byte past the end |
| Bytes.CompareDecides | libc/string.c:5-11 | on a terminated name the verdict is equality of the strings |
| Archive.FindExe | kernel/ksys.c:134-147 | on arbitrary bytes the walk terminates with the specified result: a header, nothing, or a walk off the end |
| Archive.ReadBack | kernel/ksys.c:107-122 | where an entry was written, `cpio_filesize`, `cpio_content` and `cpio_next` give its size, its data and the next entry |
| Archive.LargeFile | kernel/ksys.c:115-117 | a size of 2^31 or more is sign-extended to an unsigned long |
| Archive.SerialisedIsListed | kernel/ksys.c:107-122 | in what an archiver writes for a list of files, whatever follows it, the walk reads their names, sizes and data one after another, then the trailer |
| Archive.LookupFindsFirst | kernel/ksys.c:134-147 | where the walk reads a list of entries and a trailer, the first of the name is found, with its size and content; none exactly when no entry has the name |
| Archive.LookupInSerialised | kernel/ksys.c:107-147 | the same for the bytes an archiver writes |
| Archive.NoTrailer | kernel/ksys.c:134-147 | without a trailer the walk goes off the end, unless it finds the name before |
| Elf.Memcmp | libc/string.c:91-99 | the comparison of the first bytes with a pattern, or that it needs a byte past the end |
| Elf.FirstLoad | kernel/ksys.c:204-210 | the index is that of the first loadable header, or the count when there is none |
| Elf.ScanTable | kernel/ksys.c:204-213 | the loop over the program headers computes the specified segment |
| Elf.ParseHeaders | kernel/ksys.c:190-218 | the checks and the loop together compute the specified outcome on arbitrary bytes |
| Elf.Parse | kernel/ksys.c:190-218 | an accepted segment holds its entry point, without wrap-around |
| Elf.ParseMeaning | kernel/ksys.c:195-218 | on a file laid out as the gABI says, the outcome is the first loadable segment if the entry point is inside it, and rejection otherwise |
| Elf.HeaderRejected | kernel/ksys.c:191-202 | a header with another magic, without program headers or an entry point, or with another entry size is rejected, whatever else is in the file |
| Elf.WrongMagic | kernel/ksys.c:191-194 | five bytes that are not the magic are enough for that |
| Elf.TableOverrun | kernel/ksys.c:203-210 | a table that goes on outside the archive before a loadable header leads outside it |
| Registers.CtxSave | hosthal/ctx.c:45-54 | the trapped registers are saved and the frame becomes that of a new process: stack pointers sixteen below the stack's end, RIP at the entry |
| Registers.CtxRestore | hosthal/ctx.c:56-58 | all registers become the saved ones |
| CallStack.LoadSizeIsPages | kernel/ksys.c:220 | for a segment that fits, the region's size is the least number of whole pages that holds it |
| CallStack.LoadedRegion | kernel/ksys.c:220-227 | a loaded region is not empty, page-sized, inside the memory, and holds the entry address |
| CallStack.BootInv | kernel/ksys.c:257-290 | the state before and after `run_first` satisfies the tiling and slot invariant; on success there is one process |
| CallStack.RunInv | kernel/ksys.c:292-329 | `sys_run` keeps the invariant |
| CallStack.ExitInv | kernel/ksys.c:356-374 | `sys_exit` keeps the invariant |
| CallStack.StepsInv | hosthal/exn.c:45-60 | the invariant holds after every run of events |
| NestedCalls.StepShape | kernel/ksys.c:292-374 | a step pushes one frame, pops one or leaves the frames, and slots are neither made nor lost |
| NestedCalls.RunKeepsOldest | kernel/ksys.c:292-374 | a run that stays above a depth leaves every frame below it as it was |
| NestedCalls.ChildStarts | kernel/ksys.c:302-322 | a started child has its entry point in its own program, its stack pointer in its own stack, the other registers of its parent, and a frame with what `os_run` was given |
| NestedCalls.ExitReturnsIff | hosthal/exn.c:45-60 | a process that is not the first gives way to its caller exactly when it traps with `os_exit` |
| NestedCalls.OtherCall | hosthal/exn.c:54-58 | a call that is not run or exit puts its result in the caller's RAX, moves RIP past the trap, and changes nothing else |
| NestedCalls.ForeignTrap | hosthal/exn.c:49-51 | a trap with another opcode changes nothing |
| NestedCalls.HaltsIff | kernel/ksys.c:357-363 | the kernel halts exactly when the first process, alone, calls `os_exit` |
| NestedCalls.FaultsIff | kernel/syscall.c:18-23 | it crashes exactly on a number outside the table or an `os_run` of a program that does not fit |
| NestedCalls.FirstStarts | kernel/ksys.c:257-280 | the first process has the arguments it was given, no mark, nowhere for an exit code, a program and a stack at the start of the memory, and starts at its entry point there |
| NestedCalls.FirstFails | kernel/ksys.c:257-290 | without a slot the kernel halts, without a program or room for a stack nothing has changed, and a program that does not fit crashes it |
| NestedCalls.NestedCall | hosthal/exn.c:45-60 | after any run above it, the exit back to the caller's depth restores its registers but for RIP and RAX, frames, heap top and slots, and stores the exit value where asked |
| NestedCalls.ReturnExists | kernel/ksys.c:292-374 | every run that gets back to the caller's depth has a first exit that resumes the caller that way |
| NestedCalls.FailedCall | kernel/ksys.c:292-329 | a call starts nothing exactly when there is no name, slot, acceptable program or room for a stack, and then only RIP and RAX change |
| NestedCalls.OneRegion | kernel/ksys.c:82-105 | in end-to-end regions an address belongs to exactly one |
| NestedCalls.MemoryIsShared | kernel/ksys.c:70-105 | in every state a booted kernel reaches, programs and stacks cover `mem` to the heap top end to end, page aligned when `mem` is, and processes plus available slots are all slots |
| Kernels.ImageMeaning | kernel/ksys.c:222-223 | with no more file than memory bytes, the region holds the file's bytes followed by zeros and nothing else changes |
| Kernels.FramesSkip | kernel/proc.h:5-18 | the frames of the running processes do not depend on any other slot |
| Kernels.Kernel.constructor | kernel/init.c:10-15 | the initial state stands for the empty machine with all slots available |
| Kernels.Kernel.Alloc | kernel/ksys.c:82-95 | the old heap top and a raised one if the rest of the memory is enough, otherwise NULL and no change |
| Kernels.Kernel.FreeUp | kernel/ksys.c:97-100 | the heap top becomes the mark |
| Kernels.Kernel.FreeMark | kernel/ksys.c:102-105 | the mark is the heap top, also of an unset heap |
| Kernels.Kernel.Load | kernel/ksys.c:160-228 | by the meaning of the name: -1 with nothing changed; the image, region and entry of its segment; or a crash exactly when the segment does not fit |
| Kernels.Kernel.DropSlot | kernel/ksys.c:325-326 | freeing a slot that is in no chain keeps the chain, though the slot's word changes owner |
| Kernels.Kernel.LinkSlot | kernel/ksys.c:319-320 | linking a spare slot makes it the head of the chain and leaves the pool's lists alone |
| Kernels.Kernel.UnlinkSlot | kernel/ksys.c:371-372 | the chain loses its head and goes on where its word led before the pool reused it |
| Kernels.Kernel.SysRun | kernel/ksys.c:292-329 | the state after the call is that of the machine's `Run`, on every path, failed or not; a failed call keeps the chain of slots, and the only memory written is what `load` writes |
| Kernels.Kernel.SysExit | kernel/ksys.c:356-374 | the state after the call is that of the machine's `Exit`, with the newest slot off the chain; the last process halts |
| Kernels.Kernel.RunFirst | kernel/ksys.c:257-290 | the state after the call is that of the machine's `RunFirst`, with a NULL mark for the first process |
| Kernels.Kernel.SyscallHnd | hosthal/exn.c:45-60 | the state after a trap is that of the machine's `Syscall`; the result goes to whoever runs next |
| Kernels.Kernel.SyscallDo | kernel/syscall.c:18-23 | the call is chosen by RAX and given RBX and RCX |
| Kernels.Kernel.Handle | hosthal/exn.c:45-60 | after any sequence of events the state is the one of the machine's run |
| Kernels.Kernel.KernelStart | kernel/init.c:17-23 | the shell is started and events handled, or the kernel halts when it cannot be started |
| Kernels.ShellName | kernel/init.c:18 | the name is that of the shell |
| Kernels.Kernel.SlotsShared | kernel/ksys.c:356-374 | in every such state live chain, free list and never-used slots are without repetition, apart, and together all slots |
| Programs.NamedProgram | kernel/ksys.c:134-218 | in what an archiver writes, a name means the first file of that name, and if that is laid out as the gABI says, its first loadable segment |
| Programs.NoProgram | kernel/ksys.c:190-193 | a name no file has is not loaded |
| Programs.NotExecutable | kernel/ksys.c:191-194 | a file that starts with other bytes than the magic is not loaded |
| Programs.BadHeader | kernel/ksys.c:196-202 | neither is one without program headers or an entry point, or with another entry size |
| Programs.CutOff | kernel/ksys.c:134-147 | an archive cut off before its trailer crashes the kernel on every name that is not in it |
| Programs.ProgramRefused | kernel/ksys.c:195-218 | such a file is turned down exactly when it has no loadable segment or the first does not hold the entry point |
| Programs.ProgramLoaded | kernel/ksys.c:160-228 | otherwise it is loaded exactly when the segment and its pages fit the memory left: the segment's bytes of that file, then zeros, all other memory as before, the entry as far into the segment as the file says |
| Holes.ProcMaps.AddProcmap | hosthal/exn.c:110-119 | the piece is appended while there is room among the 128 entries, and the result says so |
| Holes.ProcMaps.CarveHole | hosthal/exn.c:149-160 | a hole that starts in the mapping leaves what is below and above it; one that sticks out breaks the assert |
| Holes.ProcMaps.Carve | hosthal/exn.c:146-165 | one mapping's pieces are appended, unless an assert on it fails |
| Holes.ProcMaps.HostVmInit | hosthal/exn.c:121-174 | on lines that may have no name, each taken to have the name the variable still holds: halts exactly when an assert fails on some mapping; otherwise the table holds the pieces of all mappings in order and the flag says whether all fit, and if they do the table is exactly theirs |
| Holes.SkippedNameIff | hosthal/exn.c:138-144 | a name is skipped exactly when it is the stack's or the thread library's occurs in it |
| Holes.ProtGrants | hosthal/exn.c:101-108 | the permission has the bit of each letter that is there, 1 to read, 2 to write, 4 to execute |
| Holes.AssertedIff | hosthal/exn.c:102-104 | an assert fails on a line exactly for a letter out of place or a hole that starts in the mapping and ends above it |
| Holes.LinesKept | hosthal/exn.c:137-146 | each line keeps its range and its letters, and its name if it has one |
| Holes.SubtractionExactIff | hosthal/exn.c:146-165 | when no assert fails, the pieces, before their sizes are narrowed, cover exactly the recorded mappings minus the holes if and only if no recorded mapping has two holes in it or one that begins below it and reaches into it |
| Holes.TableExactIffClear | hosthal/exn.c:110-165 | with pieces below 2^32 the table's entries cover exactly that under the same condition |
| Holes.TableExactIffSmall | hosthal/exn.c:26-28 | under that condition, with disjoint mappings, the entries cover exactly that if and only if every piece is below 2^32 |
| Holes.LargeMapping | hosthal/exn.c:26-28 | a mapping of 4 GiB and a page is recorded as one page |
| Holes.SkippedIff | hosthal/exn.c:135-166 | a line is skipped if and only if the nearest name at or above it is one to be skipped |
| Holes.LinesExactIff | hosthal/exn.c:121-174 | with clear and disjoint mappings, the table covers exactly what the lines say by their own names, outside the holes, if and only if every piece is below 2^32 and every line skipped without a name is all holes |
| Holes.UnnamedBehind | hosthal/exn.c:138-144 | lines without a name below a skipped one are not recorded |
| Holes.BehindLibpthread | hosthal/exn.c:142-144 | a library's mapping and an unnamed one behind it: neither is recorded |
| Holes.TwoHoles | hosthal/exn.c:146-161 | two holes in one mapping: no assert fails, and the pieces cover one of them |
| Holes.HoleOverStart | hosthal/exn.c:149-153 | a hole over the start of a mapping: no assert fails, and the whole mapping is recorded, hole included |
| Holes.PiecesKeepProt | hosthal/exn.c:155-164 | every piece lies in a recorded mapping and has its permission |
| Holes.AllPiecesDisjoint | hosthal/exn.c:138-167 | under that condition, with disjoint mappings, the pieces are pairwise disjoint |
| Protection.Vm.HostVmProt | hosthal/exn.c:73-93 | the pages after the loop and the two calls for the current process are those of the specification |
| Protection.ProtectedAt | hosthal/exn.c:85-87 | a page no entry covers keeps its permission; a covered one gets what its entries agree on |
| Protection.TableSays | hosthal/exn.c:110-174 | the pages the calls touch are those the entries cover, and an entry that covers a page of a mapping has its permission, bit by bit |
| Protection.OpenAndLocked | hosthal/exn.c:73-93 | opening gives every page of the table its mapping's permission whatever its permission was; locking closes it unless it is the current process's |
| Protection.OpenedIs | hosthal/exn.c:85-87 | after opening every page has what its entries agree on, whatever it had, and pages in no entry keep theirs |
| Protection.OpenedGrants | hosthal/exn.c:95-97 | on opened pages, a page of a recorded mapping can be used as its letters say |
| Protection.CurrentOpen | hosthal/exn.c:89-92 | after locking, the current program's pages are open for everything and its stack's for reading and writing |
| Protection.TrapsAt | hosthal/exn.c:73-99 | for any table and any run of traps: a page that is none of the processes' ends up locked if it is in the table, and otherwise never changes |
| Protection.TrapsKeepHandler | hosthal/exn.c:73-99 | the other holes' pages never change and every page in the table ends up locked, large mappings included |
| Hosts.CurrentArea | kernel/ksys.c:253-255 | the regions read from the current process's slot are those of the newest frame |
| Hosts.ExnDo | hosthal/exn.c:97 | the kernel's handler runs on opened pages only |
| Hosts.SigHnd | hosthal/exn.c:95-99 | the kernel handles the trap between opening and locking; if it comes back the pages are locked for the process that is current then, and if it halts they stay open |
| Hosts.HandleProtected | hosthal/exn.c:45-99 | over any run, the kernel's state is the abstract machine's and the pages are those left by its traps, each with the process that is newest after it; after a halt they are open |
| Hosts.CurrentWithin | kernel/ksys.c:220-313 | in every reachable state the current process's regions are whole pages inside the memory hole |
| Hosts.LastArea | hosthal/exn.c:73-99 | the last trap of a run locked for the process that is still current |
| Hosts.TrapsProtect | hosthal/exn.c:73-99 | after every trap of a booted kernel: the pages of the table locked, the other holes' pages as at the start, the running process's program open for everything and its stack for reading and writing |
| Hosts.KernelStart | kernel/init.c:17-23 | the shell started and every trap handled in the handler that locks, or a panic when it cannot be started |
| Hosts.Start | hosthal/exn.c:176-206 | mappings recorded, shell started, any events: the machine's state, and, if all pieces could be kept, every page as it should be once a trap has come back |
| Tokens.Strchr | libc/string.c:29-36 | the first occurrence, or NULL exactly when there is none |
| Tokens.Strspn | libc/string.c:38-44 | the length of the initial run of accepted characters |
| Tokens.Strcspn | libc/string.c:47-53 | the length of the initial run without rejected characters |
| Tokens.StrtokR | libc/string.c:55-71 | one token, its end overwritten unless the string ends there, and where the next call goes on |
| Tokens.TokensAreRuns | libc/string.c:55-71 | the tokens are exactly the maximal delimiter-free runs |
| Tokens.TokensInOrder | libc/string.c:55-71 | they come in order, with a delimiter after each that is not the last |
| Tokens.TokenCount | libc/string.c:55-71 | n characters have at most (n + 1) / 2 tokens |
| Tokens.CutDelimiters | libc/string.c:64-68 | only delimiters inside the string are overwritten, with NUL |
| Tokens.CutTokens | libc/string.c:63-70 | after the cut each token reads as a string of its own, with its original text |
| Tokens.CuttingStep | libc/string.c:55-71 | each call returns the next token of the original string and leaves what follows untouched |
| Tokens.Tokenise | apps/shell.c:25-34 | calling until NULL fills the vector with all tokens in order, each reading as its text, and cuts the buffer at their ends |
| Shell.SplitCommand | apps/shell.c:25-34 | a command's vector holds the arguments the line says, at most 128, and nothing outside the command is touched |
| Shell.RunCommand | apps/shell.c:24-40 | splitting a command leaves the outer tokeniser's remaining line as it was |
| Shell.ReadLine | apps/shell.c:12-19 | what was read is in the buffer, ended with NUL where there is room, and not after a failed read |
| Shell.TerminatedIff | apps/shell.c:12-19 | the line is then a string if and only if less than the buffer was read or a terminator is in it |
| Shell.LineUpToNul | apps/shell.c:12-19 | it is what was read, or what was there if nothing was, up to the first terminator |
| Shell.FullLine | apps/shell.c:17-19 | a full buffer without one holds no string |
| Shell.Turn | apps/shell.c:10-42 | one turn: it ends exactly at the end of the input, and otherwise runs the commands of the line up to its terminator |
| Shell.RunLine | apps/shell.c:21-42 | the vectors passed to `os_run` are the space-split commands of the line in order, up to the first without arguments; only separators are overwritten |
| Shell.CommandsAre | apps/shell.c:21-42 | what is run is the longest run of commands with arguments from the first: the pieces between newlines and semicolons, split at spaces |
| Format.PrintedLength | libc/stdio.c:49-70 | a printed int has at most eleven characters, so the scratch buffer never fills |
| Format.FormatInt | libc/stdio.c:49-70 | the backwards loop leaves the specified numeral at the end of the scratch buffer |
| Format.ReadsBackIff | libc/stdio.c:49-70 | the numeral reads back as the int if and only if it is not the least int, and is then canonical |
| Format.LeastInt | libc/stdio.c:55-62 | the least int is printed with characters that are not digits: all eleven of them |
| Format.MakePiece | libc/stdio.c:35-83 | each format character gives the specified piece |
| Format.WholeJoin | libc/stdio.c:26-95 | the untruncated text of one format after another is the one text after the other, on the arguments each uses up |
| Format.WholePlain | libc/stdio.c:35-40 | a format without `%` stands for itself |
| Format.WholeString | libc/stdio.c:45-48 | `%s` stands for its argument |
| Format.WholeChar | libc/stdio.c:71-75 | `%c` stands for the character its argument is |
| Format.WholeInt | libc/stdio.c:49-70 | `%d` stands for a canonical numeral that reads back as its argument, unless that is the least int |
| Format.WholeOther | libc/stdio.c:76-80 | `%` before any other character, itself included, stands for that character |
| Format.WholeOpen | libc/stdio.c:41-43 | a `%` at the end stands for nothing |
| Format.TextWholeIff | libc/stdio.c:85-90 | the text is the untruncated one if and only if that is empty or two shorter than the size, or the size is 0, and otherwise its beginning |
| Format.TextLongest | libc/stdio.c:85-90 | it ends before the first piece that would leave less than two characters |
| Format.KeptLongest | libc/stdio.c:85-90 | the kept text is that of the longest run of whole pieces that fits the room |
| Format.Vsnprintf | libc/stdio.c:26-95 | the text kept in a room of size minus two, or all of it for a size of 0, is written and terminated, nothing after it changes, and its length is returned |
| Format.InsideIff | libc/stdio.c:85-92 | the terminated text is inside the size given if and only if that is not 0 |
| Format.SizeZero | libc/stdio.c:85-92 | a size of 0 and a format of one character: the character is written |
| Getargv.Strlen | libc/string.c:13-19 | the distance to the terminator |
| Getargv.Strcpy | libc/string.c:21-27 | the characters of the source and no terminator are written |
| Getargv.FitsIff | kernel/ksys.c:340-348 | strings fit exactly when each of them, put one character behind the last, ends inside the buffer |
| Getargv.SysGetargv | kernel/ksys.c:331-354 | the count exactly when it is below the vector's size and the strings fit, otherwise -1; how many strings are packed, what is stored in each word of the vector, whether a pointer is stored behind it and which, and all memory after the call |
| Getargv.StopsOnce | kernel/ksys.c:335-351 | the number of strings packed before a failure is determined by the strings and the two sizes |
| Getargv.Stopped | kernel/ksys.c:336-350 | more pointers are stored than there are words if and only if there are more strings than words and one more than the words fits |
| Getargv.SeventeenArguments | libc/_main.c:10-12 | with 16 words and 128 characters, 17 arguments of one character do that |
| Getargv.PackedRanges | kernel/ksys.c:335-348 | the packed strings lie in the buffer, each before the next with one character between |
| Getargv.PackedAt | kernel/ksys.c:345-347 | each string is at its offset and the character after it is as it was |
| Getargv.ReadsBackIff | kernel/ksys.c:345-347 | a packed string reads back as the original if and only if the character after it was a terminator before the call |
| Getargv.NotTerminated | kernel/ksys.c:345-347 | one argument packed over other characters reads back with them |
| Trampoline.Thread.CtxPush | hosthal/ctx.c:24-28 | one word is pushed on the interrupted stack |
| Trampoline.Thread.Prepare | hosthal/ctx.c:30-43 | set-up, any number of pushes and the end leave the specified stack |
| Trampoline.Thread.TrampEnter | hosthal/tramp.S:4-16 | the registers are pushed and the stored target is called with a pointer above them |
| Trampoline.Thread.TrampLeave | hosthal/tramp.S:18-29 | from an intact frame the interrupted RIP, RSP and the eight registers come back and no other register changes |
| Trampoline.CalleeSees | hosthal/tramp.S:15-16 | for any number of pushed words the target is called, with its argument that many words below the interrupted address and all other registers as they were |
| Trampoline.CalleeWord | hosthal/tramp.S:15-16 | the argument points to the last pushed word, the others follow in reverse order |
| Trampoline.CalleeFrame | hosthal/tramp.S:4-16 | at the call the frame of the interrupted context is in place |
| Trampoline.CallAndReturn | hosthal/tramp.S:4-29 | after any callee that keeps the frame and returns, the interrupted context goes on with its eight registers, and all others as the callee left them |

## Left out

- Kernels.Kernel.SyscallDo: the effects of `os_getargv`, `os_read` and `os_write` on user memory are user steps and their results are an input, because they leave the process stack alone; `sys_getargv` is modelled on its own in `Getargv`.
- Trampoline.Thread.CtxPush: addresses are unbounded integers, so a stack that wraps around address 0 is not modelled.
- Protection.Vm.HostVmProt: `mprotect` updates whole pages and its failures on unmapped ranges are not modelled.
- Kernels.Kernel.Load: pointers that wrap around 2^64 count as outside, those into the archive and the end pointers of the two copies into memory; the copying loops would then copy nothing.
- Kernels.Kernel.RunFirst: the call of the entry is a jump; its pushed return address, and the entry returning to `run_first`, which halts, are not modelled.
- Kernels.Kernel.SysExit: the memory exit codes are stored in is a map of its own, apart from the bytes programs are loaded into; a code stored over a program's bytes changes the map only.
- Hosts.Start: with more pieces than the table holds, only the run and the report are stated, not which pages are locked; `Protection.TrapsAt` says it for any table.
- Bytes.Strcmp: only whether the result is 0, which is all the callers ask; so for Elf.Memcmp.
- Elf.Memcmp: only whether the result is 0.
- Format.Vsnprintf: arguments of the wrong kind are excluded, as C does; for a size of 0 the memory from the buffer on is taken to hold the text.
- Shell.Turn: a line that is not a string, whose tokenising would go on behind the buffer.
- Getargv.SysGetargv: the strings are assumed not to overlap the buffer they are copied into.
- Process fields other than the first word are kept in a map from slots to records, so overlap between the fields of one slot is not modelled.
- No isolation between processes inside the process memory is claimed: it is a hole that is never locked.
- The HEAD side of the merge conflict in `kernel/ksys.c` and code under `#if 0`: not the code in use.
- `hosthal/init.c`, `hosthal/dbg.c`, parsing `/proc/self/maps`, signal set-up and the system call stub: host input and output; the mappings are an input sequence.
- `kernel/exn.c`, `kernel/util.c`, `rprintf`, `snprintf`, the other applications and test scripts: wrappers and fixtures.
- The shell's prompt and its loop: each turn is handled alone by `Shell.Turn`.
- The list macros of `kernel/third-party/queue.h` that the pool does not use.
