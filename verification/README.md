# Verified models of the kernel parts of abiemu

abiemu lets Linux run programs of other Unix systems. Most of it translates system calls. It also
carries patched copies of kernel files in which state is shared, copied, moved and undone. This
project models nine of these parts in Dafny and proves what they are relied on for.

* **Pipes** (`PipeModel`, `PipeSections`, `PipeSystem`, `PipeTheorems`, `PipeWakeups`, `PipeRuns`,
  `PipeRules`, `PipeRing`, `PipeHost`, `PipeCopy`, `UserMemory`). The class `PipeInfo` is the ring of page buffers,
  with slots, pages, merging, the spare page and scatter/gather copying. Each critical section of it is
  proved equal to a function on a list of buffers. `PipeSystem` runs these functions with any number of
  readers and writers; the wakeup after the semaphore is dropped is a step of its own. Over every run the
  pipe is a byte queue, small writes are atomic and no wakeup is lost. `PipeHost` puts calls that sleep and
  go on upon the ring itself; any sequence of its operations is such a run. The rules for when a write waits
  and what it returns are those of section 6.4.2 of ISO/IEC 9945-1:1990 (POSIX.1).
* **Arguments of exec** (`Memory`, `ArgVectors`, `ArgImage`, `ArgPages`, `ArgPlacement`, `ArgGrowsUp`,
  `ArgTables`, `ExecArgs`). Strings are pushed down into pages that are allocated on demand, which refines
  one flat array. The pages become the new stack, and the loaders walk the strings to build `argv` and
  `envp`. The vectors of the new program denote the strings that the caller's vectors denote, and with
  memory to be had this works if and only if these strings can be read and fit.
* **Address space search** (`AddressSearch`). First fit sped up by two cache fields.
* **The network family lock** (`NetFamilyLock`), a counter and a spinlock, as a state machine.
* **Sockets** (`Sockets`): creation, pairs, accept and close, with module references, per-CPU counters
  and unwinding.
* **Descriptor tables** (`FdBits`, `FdTables`) across fork and exec, down to the words of the bitmaps.
* **`copy_process`** (`CopyProcess`): fifteen stages and the ladder of cleanup labels.
* **Directory records** (`DirRecords`), packed by `getdents` and `getdents64` and parsed back.
* **The TPI message queue** (`TpiQueue`), a linked list with partial reads, and binding over it.
* **x.out segments** (`XoutPlacement`), placed by a bump allocator.

`Words` and `Options` hold page rounding, the byte layout of words and a few facts about sequences.
`UserMemory` keeps the order of the stores a read makes; `Memory` is the contents of an address space.

The models assume this much about what surrounds the code:

* Memory is sequentially consistent, and `wake_up` wakes every sleeper that is not exclusive.
* A pipe call in progress keeps its end of the pipe counted as open.
* The user memory of a pipe writer does not change while the call sleeps, nor that of a caller during exec.
* Address arithmetic does not wrap, save in `AddressSearch`, where the hole arithmetic of the code is
  modelled as it wraps.
* `PAGE_SIZE` (at least 16), `PIPE_BUFFERS`, `MAX_ARG_PAGES` and the word sizes are symbolic. Masks are
  written as remainders; `Words.MaskIsRemainder` and `PipeRing.RingSlotIsMask` say that for powers of two
  this is the same.
* Callbacks and functions in other files are represented by contracts or by choices of the caller: page,
  inode and memory allocation, copying to and from user memory, protocol and file system operations,
  `sys_close`, `put_files_struct`, `exit_signal` and the like.

In some places the code does not do what one would expect. Each is stated with its condition:

* `__sock_create` returns no error and no socket when `create` set operations of a module that is being
  unloaded, or a security check returned more than 0. `Sockets.SocketLayer.Perform` is `Undefined` exactly then.
* After `remove_arg_zero` has crossed a page, the grows-up branch of `setup_arg_pages` does not put the
  strings at `arg_start` (`ArgGrowsUp.StringsAtArgStart`, `ArgGrowsUp.StalePagesMisplace`), and the
  grows-down branch may install pages outside the stack area (`ArgPlacement.PagesInStackArea`,
  `ArgGrowsUp.StalePagesOutside`). The grows-up branch also loses the file name (`ArgGrowsUp.FileNameAtExec`).
* A failed thread creation gives back the count of live threads only if `exit_signal` does, and an
  address space that was copied is not taken down in reverse order (`CopyProcess.LadderConserves`,
  `CopyProcess.LadderReverses`).
* An acknowledgement pushed in front of a half-read TPI message breaks the read position
  (`TpiQueue.Endpoint.PushFront`); an answer with no message before it dereferences NULL if the
  acknowledgement could not be allocated (`TpiQueue.Endpoint.TryBind`); a bind request that cannot be
  copied leaves the user stack pointer lowered (`TpiQueue.Endpoint.BindRequest`); a bind whose answer
  cannot be made, or whose buffer is too small for the acknowledgement, fails with the socket bound and the
  state changed (`TpiQueue.Endpoint.TiBind`).
* An impure x.out program whose entry selector is to be mirrored itself is mirrored without end
  (`XoutPlacement.Loader.XoutAmen`).
* A 32-bit data segment that takes the stack in a 286 x.out program, or a 32-bit one that is mirrored, moves
  the free address. When 16-bit segments are still placed one above the other is `XoutPlacement.PlacementIff`;
  a table for which they overlap is `XoutPlacement.StrayOverlap`.

## Model

| member | source | states |
|---|---|---|
| PipeRuns.Fifo | abiemu/fs/pipe.c:121-352 | over every run of any number of readers and writers, the bytes delivered followed by the bytes in the pipe are the bytes accepted |
| PipeRuns.ReturnsCountBytes | abiemu/fs/pipe.c:121-352 | a finished call that returns a count moved exactly that many bytes, a reader those delivered to it and a writer a prefix of its data; one that returns an error moved none |
| PipeRuns.SmallWritesAtomic | abiemu/fs/pipe.c:249-323 | a write of at most a page is in the stream as one contiguous piece, and then returns its length, or not at all |
| PipeRuns.NoLostWakeup | abiemu/fs/pipe.c:164-348 | a sleeper nobody has woken is a reader on an empty pipe with writers left or a writer on a full ring with readers left, or some call still owes a wakeup |
| PipeRuns.NeverBothStuck | abiemu/fs/pipe.c:164-348 | if all active calls sleep unwoken, all are readers of an empty pipe with writers or all are writers on a full ring with readers |
| PipeTheorems.StreamStep | abiemu/fs/pipe.c:141-352 | every step keeps the equation between accepted bytes, delivered bytes and contents |
| PipeTheorems.CallsStep | abiemu/fs/pipe.c:141-352 | every step keeps what each call has moved in line with the logs and with what it will return |
| PipeWakeups.SleepStep | abiemu/fs/pipe.c:121-449 | every step, also closing an end, keeps the wakeup invariant with the count of waiting writers and of open ends |
| PipeSections.ReadLoopMeaning | abiemu/fs/pipe.c:138-202 | a read section takes bytes from the front only, wakes if it freed a slot, and says why it stops |
| PipeSections.WriteLoopMeaning | abiemu/fs/pipe.c:272-342 | a write section appends a part of the data only, wakes if it touched a page, and says why it stops |
| PipeSections.WriteEnterMeaning | abiemu/fs/pipe.c:243-342 | the same with the merging of small writes in front, and a small write is taken whole or not |
| PipeSections.MergeMeaning | abiemu/fs/pipe.c:251-270 | merging into the newest buffer appends to the stream |
| PipeRules.ReadRule | abiemu/fs/pipe.c:138-202 | with sound memory a read takes as many bytes as it wants and there are; what it does on a dry pipe |
| PipeRules.WriteRule | abiemu/fs/pipe.c:272-342 | with sound memory and pages a write fills exactly the free slots and waits only on a full ring |
| PipeRules.SmallWriteRule | abiemu/fs/pipe.c:249-342 | a write of at most a page succeeds at once if and only if a slot is free or it can be merged; else nothing changes |
| PipeRules.PollAnnounces | abiemu/fs/pipe.c:401-431 | a non-blocking read fails with EAGAIN if and only if poll announces no bytes, there are writers and none waits; if poll announces room and no error, a write takes at least a page or all; poll announces an error if and only if a write fails with EPIPE |
| PipeRing.RingSlotIsMask | abiemu/fs/pipe.c:167 | for a power of two the ring index of the model is the masked index of the code |
| PipeRing.PipeInfo.constructor | abiemu/fs/pipe.c:661-677 | a new pipe is empty and owns no page |
| PipeRing.PipeInfo.BufRelease | abiemu/fs/pipe.c:93-102 | a page is kept in hand if the hand is empty and freed once otherwise; no page is freed that was freed before |
| PipeRing.PipeInfo.PageBound | abiemu/fs/pipe.c:280-319 | the pages owned are one per live slot and the one in hand, at most `PIPE_BUFFERS` + 1 |
| PipeRing.PipeInfo.ReadSection | abiemu/fs/pipe.c:138-202 | the loop over slots, pages and the iovec refines the read function on the list of buffers, user memory gets the bytes taken, in order, and a section that sleeps leaves the vector right behind them |
| PipeRing.PipeInfo.MergeBack | abiemu/fs/pipe.c:251-270 | copying behind the newest bytes in its page is the merge on the list; a fault changes nothing |
| PipeRing.PipeInfo.InsertBack | abiemu/fs/pipe.c:299-318 | a filled page becomes the newest buffer, or stays in hand after a fault |
| PipeRing.PipeInfo.WriteSection | abiemu/fs/pipe.c:272-342 | the write loop refines the write function on the list of buffers, owns each page once, and leaves the vector at the bytes still to be written if it sleeps |
| PipeRing.PipeInfo.WriteEntry | abiemu/fs/pipe.c:243-342 | the whole write up to leaving or sleeping refines the list function, and a resumed section can go on where it slept |
| PipeRing.PipeInfo.Fionread | abiemu/fs/pipe.c:383-394 | FIONREAD is the number of bytes in the pipe |
| PipeRing.PipeInfo.FreeInfo | abiemu/fs/pipe.c:645-659 | every owned page is freed, each exactly once, and none that was freed before |
| PipeHost.Host.Start | abiemu/fs/pipe.c:132-140 | a call with its own vector begins, as a step of the system of calls |
| PipeHost.Host.RunReader | abiemu/fs/pipe.c:138-202 | any of the readers on the ring, new or woken, runs one section: this is a step of the system, it goes on where it was, and its bytes are stored behind those of before |
| PipeHost.Host.RunWriter | abiemu/fs/pipe.c:240-342 | the same for any of the writers, with the count of waiting writers; pages it adds are new |
| PipeHost.Host.Return | abiemu/fs/pipe.c:203-211 | a call sends the wakeup it owes and returns the number of bytes it moved over all its sections |
| PipeHost.Host.OpenEnd | abiemu/fs/pipe.c:532-566 | opening another end is a step of the system |
| PipeHost.Host.CloseEnd | abiemu/fs/pipe.c:433-449 | closing an end that no call needs is a step of the system |
| PipeHost.Host.RunAll | abiemu/fs/pipe.c:121-449 | any sequence of these operations on any number of calls, up to the first that cannot happen, is a run of the system, step by step the one asked for |
| PipeHost.Host.Answered | abiemu/fs/pipe.c:203-211 | whatever the operations were, each result returned tells how many bytes were moved for that call |
| PipeHost.Host.RingIsFifo | abiemu/fs/pipe.c:121-352 | after any interleaving of these operations the ring holds what was accepted and not delivered |
| PipeHost.Host.CountBytes | abiemu/fs/pipe.c:383-394 | FIONREAD is the number of bytes accepted less the number delivered |
| PipeCopy.IovCopyFromUser | abiemu/fs/pipe.c:53-71 | gathers the next bytes of the vector, advances it by as much and never leaves it; fails if and only if one of these addresses faults |
| PipeCopy.IovCopyToUser | abiemu/fs/pipe.c:73-91 | stores the bytes at the next addresses of the vector, in order; fails if and only if one of them faults |
| UserMemory.UserVector.Peek | abiemu/fs/pipe.c:58-63 | skipping drained elements stays inside the vector and finds the next run of addresses |
| AddressSearch.ScanIsFirstFit | abiemu/arch/x86_64/kernel/sys_x86_64.c:118-144 | the loop from an address on finds the lowest fit above it, or there is none |
| AddressSearch.SearchIsSound | abiemu/arch/x86_64/kernel/sys_x86_64.c:108-145 | whatever the cache fields hold, the range found is in the window and free, and the search fails if and only if there is none |
| AddressSearch.CachedSearchIsFirstFit | abiemu/arch/x86_64/kernel/sys_x86_64.c:108-144 | for 32-bit requests with a hole bound that holds, the result is the lowest fit of the whole window and the bound holds up to it |
| AddressSearch.ApplyKeeps | abiemu/arch/x86_64/kernel/sys_x86_64.c:101-144 | a search, hinted or not, followed by mapping its range keeps the areas sorted and the hole bound true |
| AddressSearch.CacheIsTransparent | abiemu/arch/x86_64/kernel/sys_x86_64.c:108-144 | after any run of searches and mappings from a fresh address space the cached search returns what plain first fit returns |
| AddressSearch.Mm.constructor | abiemu/kernel/fork.c:330-331 | the cache fields of a fresh address space |
| AddressSearch.Mm.GetUnmappedArea | abiemu/arch/x86_64/kernel/sys_x86_64.c:87-145 | the code returns the hint if it fits and else is the search function, cache fields included |
| AddressSearch.Mm.SearchLoop | abiemu/arch/x86_64/kernel/sys_x86_64.c:118-144 | the loop with its restart ends and is the scan, from the cache and then from the window's begin |
| Memory.UserLengthMeaning | abiemu/fs/exec.c:215-219 | what the length of a user string says: a string in place, no NUL in reach, or an unreadable byte before one |
| ArgImage.FillPieces | abiemu/fs/exec.c:230-273 | copying a string page by page is copying it at once into the flat array |
| ArgImage.PushLaid | abiemu/fs/exec.c:226-228 | pushing a string keeps the strings contiguous, whatever was left below them |
| ArgImage.PushClean | abiemu/fs/exec.c:254-262 | pushing allocates no page below the string and leaves zero bytes beside it |
| ArgImage.PagesOfStrings | abiemu/fs/exec.c:230-273 | the allocated pages are those from `p / PAGE_SIZE` to the top and hold string bytes or zero |
| ArgPages.PatchIsFill | abiemu/fs/exec.c:235-262 | writing into one page, old or new, is writing into the flat array |
| ArgVectors.Count | abiemu/fs/exec.c:177-196 | counts the pointers before NULL; E2BIG, EFAULT and a NULL table exactly as the code has them, and a failure means that no vector of at most `max` strings is there |
| ArgVectors.DeniedStrings | abiemu/fs/exec.c:210-224 | if copying stops at a string with EFAULT or E2BIG, then the strings of the vector do not fit all together |
| ArgVectors.VectorExact | abiemu/fs/exec.c:177-196 | a vector denotes one sequence of strings only, hence the ones passed on |
| ArgPages.Binprm.constructor | abiemu/fs/exec.c:1160 | the area starts empty, a pointer's width below the top |
| ArgPages.Binprm.CopyChunk | abiemu/fs/exec.c:230-272 | one page's share of a string is in the flat array; EFAULT, and ENOMEM only if fewer pages can be had than are missing |
| ArgPages.Binprm.PushString | abiemu/fs/exec.c:226-273 | a whole string is in the flat array below the old `p`; each page allocated uses up one that can be had |
| ArgPages.Binprm.CopyStrings | abiemu/fs/exec.c:203-280 | the strings of the table end up in order on top of what was there; if it stops, which string was refused and why |
| ArgPages.Binprm.AmpleSlack | abiemu/fs/exec.c:239-247 | as many pages to be had as there are slots are enough, so that copying does not fail with ENOMEM |
| ArgPages.Binprm.SkipString | abiemu/fs/exec.c:1017-1029 | finds the end of the first string and looks only at pages that are there |
| ArgPages.Binprm.RemoveArgZero | abiemu/fs/exec.c:1010-1032 | exactly the first string with its NUL is removed |
| ArgPages.Binprm.PrepareArgs | abiemu/fs/exec.c:1160-1201 | if no more pages are missing than can be had, it succeeds if and only if the caller's vectors and the file name denote strings that can be read, are few enough and fit; then they are laid out without gaps, and the counts are right |
| ArgPlacement.InstallPages | abiemu/fs/exec.c:455-462 | the pages appear in the new address space as the image, and nothing else does |
| ArgPlacement.SetupGrowsDown | abiemu/fs/exec.c:407-463 | base, `p` and stack area, and the image mapped at the base |
| ArgPlacement.PagesInStackArea | abiemu/fs/exec.c:407-435 | all installed pages lie in the stack area if and only if at most `EXTRA_STACK_VM_PAGES` pages are stale |
| ArgGrowsUp.ShiftDown | abiemu/fs/exec.c:370-405 | moving pages and bytes is moving the flat image down by `p mod PAGE_SIZE` and the pages below |
| ArgGrowsUp.SetupGrowsUp | abiemu/fs/exec.c:362-463 | the moved image mapped at the base, with `p` at the end of its pages |
| ArgGrowsUp.NothingLost | abiemu/fs/exec.c:370-389 | every byte of the image from the start of the move is there, in order |
| ArgGrowsUp.StringsAboveBottom | abiemu/fs/exec.c:370-400 | the strings lie above the base by as much as pages are allocated below theirs |
| ArgGrowsUp.StringsAtArgStart | abiemu/fs/exec.c:397-400 | the strings are at `arg_start` if and only if the image holds them where the move starts, and they are if no stale page is below `p` |
| ArgGrowsUp.StalePagesMisplace | abiemu/fs/exec.c:362-400 | an image left by removing a long argument whose remaining strings are not at `arg_start` |
| ArgGrowsUp.StalePagesOutside | abiemu/fs/exec.c:407-435 | an image left by removing a longer argument with pages below the stack area |
| ArgGrowsUp.FileNameAtExec | abiemu/fs/exec.c:397-418 | `exec` leads to the file name if and only if nothing moved, or no page is missing below and the name is in the last bytes, which moving leaves behind |
| ArgTables.TableIsVector | abiemu/fs/binfmt_coff.c:269-282 | addresses of strings that lie back to back, then NULL, are a vector of these strings |
| ArgTables.Process.FillTable | abiemu/fs/binfmt_coff.c:269-274 | one walk over the strings writes such a table and changes nothing else |
| ArgTables.Process.CoffTables | abiemu/fs/binfmt_coff.c:253-286 | count, `argv` and `envp` lie below the strings and denote them; `arg_start`, `arg_end`, `env_start` and `env_end` delimit them |
| ArgTables.Process.XoutTables | abiemu/fs/binfmt_xout.c:151-185 | the same, with pointers to both tables below them unless the program is an iBCS one |
| ExecArgs.StagedStrings | abiemu/fs/exec.c:1190-1201 | the strings of the image are found in the new address space, the file name behind them |
| ExecArgs.ExecCoff | abiemu/fs/exec.c:1160-1201 | from the caller's vectors to those of a COFF program: the same strings, in order, NULL-terminated, tables below strings; with enough pages it succeeds if and only if the strings fit and the stack area can be had |
| ExecArgs.ExecXout | abiemu/fs/binfmt_xout.c:563-569 | the same for an x.out program |
| ExecArgs.ReplaceArgZero | abiemu/fs/exec.c:1010-1032 | removing the first argument, if there is one, and copying others in its place leaves the strings contiguous again; it fails only if they do not fit in the room regained or for lack of pages |
| ExecArgs.PrepareScript | abiemu/fs/exec.c:1172-1199 | the strings of a script: those gathered from the caller with the first argument replaced; refused if and only if they or the caller's do not fit, given enough pages |
| ExecArgs.ExecScript | abiemu/fs/exec.c:1010-1201 | the interpreter of a script finds the strings of the loader, then the caller's arguments but the first, and the caller's environment; with enough pages it succeeds if and only if both sets of strings fit and the stack area can be had |
| NetFamilyLock.NextKeepsInv | abiemu/net/socket.c:157-183 | every step keeps the counter equal to the readers, one holder, exclusion and agreeing loads |
| NetFamilyLock.MutualExclusion | abiemu/net/socket.c:157-183 | no writer is in its section while a reader is in its own, and one thread has the spinlock |
| NetFamilyLock.SlotIsStable | abiemu/net/socket.c:1119-1176 | every load of a family slot between read lock and unlock returned what is there now |
| NetFamilyLock.NeverStuck | abiemu/net/socket.c:157-183 | a thread under way can move, or the one holding the spinlock can |
| NetFamilyLock.SlotChanges | abiemu/net/socket.c:2008-2033 | over every run a slot changes only when a writer of that slot stores while no reader is in its section; an empty one gets the family registered, a filled one is only emptied |
| NetFamilyLock.WriterSeesItsSlot | abiemu/net/socket.c:2008-2033 | over every run a writer about to unlock finds in its slot what it stored, or a family if it could not register |
| Sockets.RefsUpdate | abiemu/net/socket.c:513-521 | changing a socket changes module references by what it held and holds |
| Sockets.ReleasedOnce | abiemu/net/socket.c:513-533 | a socket that was made and is not live was released exactly once |
| Sockets.SettledSince | abiemu/net/socket.c:1075-1404 | if the live sockets are those of before, the sockets made since are exactly those released since, each once |
| Sockets.SocketLayer.SockAlloc | abiemu/net/socket.c:468-486 | a new live socket without operations, counted on some CPU |
| Sockets.SocketLayer.SockRelease | abiemu/net/socket.c:513-533 | the socket, its reference and its count are gone |
| Sockets.SocketLayer.SockMapFd | abiemu/net/socket.c:368-415 | the descriptor leads to the socket if descriptor, file and directory entry are to be had; else nothing changed |
| Sockets.SocketLayer.SockCreate | abiemu/net/socket.c:1075-1177 | a socket with one reference, or nothing left behind; which of them, and success without a socket, if and only if what the callbacks return says so |
| Sockets.SocketLayer.SysSocket | abiemu/net/socket.c:1189-1209 | when it succeeds: a descriptor for a new socket; else everything as before |
| Sockets.SocketLayer.SysSocketpair | abiemu/net/socket.c:1215-1274 | when it succeeds: two descriptors for two sockets; everything as before on each of the error exits |
| Sockets.SocketLayer.SysAccept | abiemu/net/socket.c:1349-1404 | when it succeeds: a descriptor for a socket with the listener's operations; else everything as before |
| Sockets.SocketLayer.SysClose | abiemu/net/socket.c:953-968 | the descriptor, its socket and its reference are gone |
| Sockets.SocketLayer.Perform | abiemu/net/socket.c:1075-1404 | the state after a successful call is a function of the call and the state before; a failing call leaves sockets, descriptors and references as they were and releases each socket it made exactly once; which of them, and going on without a socket, follow from the choices; references, in-use total and descriptors stay matched |
| Sockets.SocketLayer.Run | abiemu/net/socket.c:1075-1404 | every run of calls is a chain of such steps, with all results and the states between them |
| FdBits.ClearMeaning | abiemu/kernel/fork.c:695 | clearing a bit of a bitmap of words clears that bit and no other |
| FdTables.FdTable.CountOpenWords | abiemu/kernel/fork.c:569-581 | all words behind the count are zero and the last one counted is not, save that one word is always counted |
| FdTables.FdTable.InstalledBelow | abiemu/kernel/fork.c:569-581 | every installed file lies below the count |
| FdTables.CopyTable | abiemu/kernel/fork.c:678-713 | slots, claims and close-on-exec bits of the copy, bit by bit, and one reference per slot |
| FdTables.CopyFiles | abiemu/kernel/fork.c:610-726 | sharing, copying of all counted descriptors, which include all installed ones, the relock with a changed table, and when it fails |
| FdTables.CopyClaimed | abiemu/kernel/fork.c:684-698 | in the copy exactly the installed descriptors are claimed |
| FdTables.UnshareFiles | abiemu/kernel/fork.c:734-753 | one user more, or a copy of its own of everything installed, or no change; and when which |
| FdTables.PutFiles | abiemu/fs/exec.c:872 | the last user closes everything, one reference per slot |
| FdTables.FlushWord | abiemu/fs/exec.c:806-815 | shifting a word out closes exactly the descriptors of its bits |
| FdTables.FlushOldFiles | abiemu/fs/exec.c:792-820 | a file is gone if and only if its close-on-exec bit was set; references and claims go with it |
| FdTables.RestoreFiles | abiemu/fs/exec.c:914-916 | dropping the copy takes back exactly the references it made |
| FdTables.ExecFiles | abiemu/fs/exec.c:852-918 | when it fails, and that table, count and references are then as they were; else exactly the files without the bit are left, with their claims and one reference per slot, and a table that was shared stays with one user less beside a new one |
| CopyProcess.UndoSame | abiemu/kernel/fork.c:1162-1198 | each label gives back what its stage acquired, save for the count of live threads |
| CopyProcess.LadderConserves | abiemu/kernel/fork.c:1162-1198 | entered at any label for any flags, the ladder gives back each resource acquired once if and only if nothing leaks |
| CopyProcess.LadderReverses | abiemu/kernel/fork.c:1162-1198 | it does so latest first if and only if nothing leaks and no address space was copied |
| CopyProcess.MmSwapped | abiemu/kernel/fork.c:361-367 | with a copied address space the order is not the reverse one |
| CopyProcess.OrderSettled | abiemu/kernel/fork.c:452-523 | what the failing stage and the ladder give back is in reverse order if and only if nothing leaks and no address space with a context is taken down |
| CopyProcess.HeldOnce | abiemu/kernel/fork.c:902-1155 | no resource is acquired twice on the way to success |
| CopyProcess.Fork.CopySignal | abiemu/kernel/fork.c:775-797 | the stage acquires its resources or has given back itself what it took |
| CopyProcess.Fork.CopyMm | abiemu/kernel/fork.c:452-523 | the same for the address space with its own error exits |
| CopyProcess.Fork.Unwind | abiemu/kernel/fork.c:1162-1198 | falling through from a label is the concatenation of the labels below |
| CopyProcess.Fork.CopyProcess | abiemu/kernel/fork.c:873-1199 | success holds everything once, invalid flags nothing; otherwise it stops at the first stage that fails, with what was taken and given back until then; both balance if and only if nothing leaks, and are in reverse order if and only if moreover no address space with a context goes |
| DirRecords.Filler.Filldir | abiemu/fs/readdir.c:133-167 | a record that fits is appended and linked from the one before, and nothing outside of the records changes; else EINVAL or EFAULT and no change |
| DirRecords.Filler.StoreRecord | abiemu/fs/readdir.c:148-158 | the stores put a record in place and touch nothing outside of it |
| DirRecords.Filler.Link | abiemu/fs/readdir.c:143-147 | the offset goes into the last record and changes no other |
| DirRecords.ParseBack | abiemu/fs/readdir.c:217-253 | parsing a record gives back name, inode, type, offset and length |
| DirRecords.WalkBack | abiemu/fs/readdir.c:133-293 | walking the buffer by `d_reclen` gives back exactly the records packed |
| DirRecords.FillFrom | abiemu/fs/readdir.c:190 | the buffer holds the run of entries from the position on up to the first that does not fit or whose callback fails |
| DirRecords.GetDents | abiemu/fs/readdir.c:169-206 | what is returned, which entries the buffer holds, how far the position moves, and that nothing outside of the buffer changes, in every case, also when `readdir` fails before or after some callbacks |
| DirRecords.ReadFrom | abiemu/fs/readdir.c:255-293 | the buffer part for both layouts |
| DirRecords.OffsetResumes | abiemu/fs/readdir.c:196-201 | the offset in a record leads to the entry behind it |
| DirRecords.TraceReads | abiemu/fs/readdir.c:169-206 | whatever calls in a row return and leave in memory, what is read from all of them is the entries from the first position to where they have come |
| DirRecords.TraceComplete | abiemu/fs/readdir.c:169-206 | if the last of them returns 0, this is every entry from the first position on |
| DirRecords.ReadAll | abiemu/fs/readdir.c:169-206 | repeated calls with room for any record return results and memories from which a program reads every entry once, in order; the last returns 0 and leaves the position at the end |
| TpiQueue.Endpoint.PushFront | abiemu/abi/svr4/xti.c:95-156 | the list stays a list with the acknowledgement in front; the read position stays right if and only if nothing of the first message was read |
| TpiQueue.Endpoint.Append | abiemu/abi/svr4/xti.c:938-942 | the answer is last |
| TpiQueue.Endpoint.GetMsg | abiemu/abi/svr4/xti.c:644-700 | the next bytes of the first message; MORECTL if and only if bytes are left, else the message goes |
| TpiQueue.Endpoint.ReadMessage | abiemu/abi/svr4/xti.c:644-700 | reading is done if and only if the sizes add up to the message, and the pieces read are the message |
| TpiQueue.Endpoint.TryBind | abiemu/abi/svr4/xti.c:874-965 | state, queue and result of a bind whose request could be read |
| TpiQueue.Endpoint.BindRequest | abiemu/abi/svr4/xti.c:847-966 | state, queue, result and stack pointer of a bind request in every case |
| TpiQueue.Endpoint.ConnectRequest | abiemu/abi/svr4/xti.c:990-1116 | state, queue, result and stack pointer after a connect request in every case |
| TpiQueue.Endpoint.BindReplies | abiemu/abi/svr4/xti.c:1383-1419 | reading the replies empties the queue if and only if the buffer takes the acknowledgement |
| TpiQueue.Endpoint.TiBind | abiemu/abi/svr4/xti.c:1368-1420 | from an empty queue to an empty queue if and only if the buffer is large enough; an accepted bind with an address gives idle or waiting, and a bind fails with the state changed if and only if the socket was bound but the answer could not be made or the acknowledgement does not fit the buffer |
| XoutPlacement.EndsAreMaxima | abiemu/fs/binfmt_xout.c:274-299 | an end marker is passed by no segment of its kind and, unless it did not move, reached by one |
| XoutPlacement.BrkMeaning | abiemu/fs/binfmt_xout.c:301-304 | the break is below no segment's end and, if it moved, on the page behind one of them |
| XoutPlacement.Loader.PlaceOnce | abiemu/fs/binfmt_xout.c:253-304 | a 16-bit segment gets the next pages, the first data segment of a 286 program the stack; end markers and break follow |
| XoutPlacement.Loader.XoutAmen | abiemu/fs/binfmt_xout.c:228-436 | with mirroring: the segment, the free address, markers, break and result in every case; it does not end if and only if the entry selector is to be mirrored, too |
| XoutPlacement.StrayOverlap | abiemu/fs/binfmt_xout.c:424-433 | a table for which two 16-bit segments get the same byte |
| XoutPlacement.FirstFree | abiemu/fs/binfmt_xout.c:619-665 | placing starts on a page above the saved headers |
| XoutPlacement.LoadSegments | abiemu/fs/binfmt_xout.c:677-685 | each segment gone through becomes what the table before it determines, a 16-bit one at the free address; where the loop stops and with what result; end markers and break |
| XoutPlacement.PlacementIff | abiemu/fs/binfmt_xout.c:253-304 | 16-bit segments are placed one above the other on pages from the start on, if and only if each 32-bit segment that moves the free address, with a 16-bit one behind it, moves it to a page at or above the start and above the 16-bit ends before |
| XoutPlacement.NarrowFits | abiemu/fs/binfmt_xout.c:253-304 | without 32-bit segments they always are |
| XoutPlacement.Disjoint | abiemu/fs/binfmt_xout.c:677-685 | well placed 16-bit segments share no byte, start on pages and lie above the start |

## Left out

- Tables of system calls, errors, signals and options, and field-by-field translations: lookups settled by reading them.
- `exec_domain.c` and the lists of binary formats: only membership facts.
- `de_thread`, core dumps, coff comments and the mapping calls of both loaders: they rest on code in other files.
- SIGIO delivery, auditing, security hooks, page mapping for the kernel and tracing.
- Data transfer, option management and `timod_update_socket` of the TPI layer: network calls on user scratch space.
- PipeRules.PollAnnounces: leaves out POLLHUP, because it depends on the history of the open file.
- AddressSearch.CacheIsTransparent: says nothing after a failed search, an unmap or a mix of windows, because the code does not keep the hole bound there.
- ArgPages.Binprm.PrepareArgs: leaves out opening the file, `prepare_binprm` and the security hooks between the copies; the caller's memory does not change between measuring and copying a string.
- ArgTables.Process.CoffTables: storing words on the new stack does not fail, because the code ignores the result.
- ExecArgs.ExecScript: the loader of scripts is not part of this model; it removes the first argument, copies at most three strings of its own and counts them.
- ExecArgs.ExecCoff: stacks that grow up are not carried on to the tables, because the loaders lay them out for stacks that grow down.
- Sockets.SocketLayer.SysClose: the descriptor is the only one of its socket, because duplication is in other files.
- FdTables.CopyFiles: leaves out tasks without files, for which the code does nothing, and clears the rest of the bitmaps before the slots instead of after.
- FdTables.PutFiles: stands for a function of another file, as far as slots and references go.
- FdTables.FlushOldFiles: other tasks do not change the table meanwhile, because after unsharing it is private.
- CopyProcess.Fork.CopyProcess: the order in which `exit_signal` gives back its parts is a contract, because it is not among the files here.
- DirRecords.GetDents: a callback that fails stores nothing; a file system calls back in order from the position it was given, and if it then returns an error the position is where the callbacks stopped.
- TpiQueue.Endpoint.BindRequest: leaves out the byte order fix of the address family and the listen call, which change neither queue nor state, and the translation of error numbers.
- PipeHost.Host.CloseEnd: closing the last end leaves the ring as it is; that its pages are freed is PipeRing.PipeInfo.FreeInfo.
- TpiQueue.Endpoint.TiBind: reading the replies does not fault, and the acknowledgement can be allocated, because without one there is no reply to read.
- XoutPlacement.LoadSegments: leaves out descriptor table entries and the mapping itself.
