# A model of the XiOS kernel and its grep

XiOS is a small x86 teaching kernel with user programs. This project models the parts of it
whose behaviour depends on long-lived state or on nested loops, and proves what they promise
over every input and every run: the kernel allocator, processes and scheduling, the file
system read path and the program loader, paging, the terminal (line editor, history,
screens), the floppy transfers, number printing, and the streaming search of the grep
program. Inline assembly and device registers are reduced to plain steps.

Most cores come as two modules. One says what the state means and what a step does to it, as
functions on values, and proves the theorems. The other has the code's own arrays, links and
loops, and proves that each routine makes exactly that step.

| file | contents |
|---|---|
| `Machine.dfy` | bytes, buffers, division |
| `FirstFit.dfy`, `KernelHeap.dfy`, `Allocator.dfy` | `kmalloc` and `kfree`: block lists, the heap over runs, descriptors and links |
| `Grep.dfy` | the windowed line search |
| `Processes.dfy`, `ProcessTable.dfy` | spawn, execute, halt, schedule: the invariant over runs, the code |
| `RoundRobin.dfy`, `Runqueue.dfy`, `LinkedKernel.dfy` | the order in which tasks are picked, the linked runqueue, whole runs of processes on it |
| `FileSystem.dfy`, `Descriptors.dfy`, `Loader.dfy` | `read_data`, descriptors and streaming, loading a program |
| `Paging.dfy` | page tables and the translation they amount to |
| `LineEditor.dfy`, `TerminalBuffer.dfy` | keys, history and line delivery, on values and on the character arrays |
| `Screens.dfy` | terminals sharing one screen, with scrollback |
| `Floppy.dfy`, `Numbers.dfy` | whole-disk transfers, `itoa` and the hexadecimal formats |

`dafny verify dfyconfig.toml` checks everything.

## How the code is read

Pointers to descriptors, pages and tables are indices. Addresses are unbounded integers;
where 32-bit or unsigned arithmetic changes the result (`read_data`, `file_read`,
`load_program`, the loop bound of `schedule`) the wrap-around is written out. `memcpy` and
`memset` have their plain meaning. A process step is atomic, since system calls and the
scheduler run with interrupts off; runs start once the kernel has idled itself. The three
shells that the kernel starts before that are ordinary spawn steps: spawning does not look at
the kernel's own status. No program starts at the address of the label `task_switch_back`, with
which the code compares start addresses (`Processes.ScheduleFrame`).

Where the code does not keep what one would expect of it, it is modelled as it is, with the
exact condition, and with a failing input where there is one:

- `kmalloc` dereferences a null descriptor when it has to split a block and the pool of 500
  descriptors is used up (`KernelHeap.KmallocFaultIff`, `KernelHeap.OnesRunOut`); the bytes
  are then lost.
- grep cuts lines longer than its window into pieces, and an uninitialized byte past the
  window can cut one more: `Grep.ExpectedPrintLinesIff` says for either value of the byte
  when exactly the matching lines are printed (`Grep.LongLineIsCut`, `Grep.StaleNewlineCuts`).
- A failing `kernel_spawn` leaves the kernel as current process (`Processes.SpawnFailureIff`,
  `Processes.SpawnFailureHappens`); a successful one leaves the pages and the kernel stack of
  the new shell loaded for whichever process called it (`Processes.HeldIsCurrentIff`).
- The bound of the loop in `schedule` never holds it back (`RoundRobin.LoopEndsIff`), so that the
  kernel hangs when the last shell has gone (`Processes.ScheduleEndsIff`, `Processes.LastShellGone`).
- The length check of `read_data` admits a block past the inode's list
  (`FileSystem.OverrunIff`), and a failed read moves the file position back
  (`Descriptors.NewPosIff`, `Descriptors.FailedReadMovesBack`).
- `load_program` does not notice a failure of its second read (`Loader.SecondRead`,
  `Loader.TruncatedProgramStarts`). It writes through the pages of the new process, so that a
  file that does not fit its page ends in a page fault, except for pid 30, where the rest
  lands at the start of the same page, and for pids 46 to 51, where it lands in kmalloc
  storage (`Loader.LoadInode`, `Loader.LoadStaysInPageIff`). The pages of pids 47 to 52 are
  kmalloc storage themselves (`Loader.LoadHitsHeapIff`).
- A recall that goes back to the top of a full history reads past the history array
  (`LineEditor.OutsideIff`, `LineEditor.StaysIff`, `LineEditor.UpThenDownLeavesArray`).
- A terminal switch by mouse does not reset the scrollback, so that the terminal comes back
  showing an older page while its offset is 0 (`Screens.MouseSwitchIff`,
  `Screens.MouseSwitchShowsOlder`); the live screens survive all the same.

The trimming loop of `handle_enter` may look at `keyboard_buffer[-1]`, which is the high byte
of the buffer size. That is never a space (`TerminalBuffer.SizeIsNoSpace`), so nothing comes
of it.

## Model

| member | source | states |
|---|---|---|
| `FirstFit.ScanLeaves` | student-distrib/mem.c:48-61 | for every sorted free list and size, the walk leaves a sorted list that covers all the bytes it covered, or all but the block handed out, which was covered |
| `FirstFit.ScanFailsIff` | student-distrib/mem.c:48-63 | the walk fails exactly when one whole pass of merging leaves no block of the size, and what it leaves behind is that pass |
| `FirstFit.ScanFinds` | student-distrib/mem.c:48-61 | a listed block that already fits makes the walk succeed |
| `FirstFit.ScanTakesFirst` | student-distrib/mem.c:48-61 | first fit: what is found is the left end of the first block that is large enough after the merges of a pass |
| `FirstFit.PassHalvesRun` | student-distrib/mem.c:50-53 | a pass turns a run of k adjacent blocks into ceil(k/2) blocks that are again adjacent |
| `FirstFit.PassPairs` | student-distrib/mem.c:50-53 | in a run a pass joins blocks 2i and 2i + 1 |
| `FirstFit.PassSplits` | student-distrib/mem.c:49-61 | separate runs are merged independently of each other |
| `FirstFit.PassesMergeIff` | student-distrib/mem.c:49-61 | n failing passes reach the fully merged list if and only if no run is longer than 2^n blocks |
| `FirstFit.FullyMergedIs` | student-distrib/mem.c:49-61 | the fully merged list is sorted, covers the same bytes, and no two of its blocks touch |
| `KernelHeap.KmallocKeeps` | student-distrib/mem.c:44-64 | kmalloc changes no byte, keeps the partition of the 24 MB and the zeroed free bytes exactly when it does not fault, and what it returns is zeroed, inside the storage and disjoint from every live block |
| `KernelHeap.KmallocTakes` | student-distrib/mem.c:44-64 | a request that is answered makes one more block live, takes exactly its bytes from the free ones, and takes them at the first place |
| `KernelHeap.KmallocRefuses` | student-distrib/mem.c:44-63 | a request that gets NULL changes neither live blocks nor free bytes nor memory |
| `KernelHeap.KmallocNullIff` | student-distrib/mem.c:44-64 | NULL is returned exactly when a pass leaves no block of the size |
| `KernelHeap.KmallocSucceeds` | student-distrib/mem.c:54-59 | a free block that fits is never missed |
| `KernelHeap.StrainedIff` | student-distrib/mem.c:48-61 | the walk finds a block and gives no descriptor back exactly when some free block is larger than the request, all before it are smaller, and none up to it touches the next |
| `KernelHeap.KmallocFaultIff` | student-distrib/mem.c:56-57 | the null descriptor is dereferenced exactly when the pool was full and there was such a block |
| `KernelHeap.OnesRunOut` | student-distrib/mem.c:132-145 | from the initial heap 497 one-byte requests succeed, at consecutive addresses, and the next one faults although one block holds all the rest of the storage |
| `KernelHeap.RetriesCoalesce` | student-distrib/mem.c:48-63 | after n failed requests that cover runs of 2^n, the next one fails only if no run of adjacent free blocks joined together is large enough |
| `KernelHeap.FreeKeepsPartition` | student-distrib/mem.c:75-90 | freeing a live block moves exactly its bytes to the free list, zeroed |
| `KernelHeap.KfreeFrees` | student-distrib/mem.c:75-90 | freeing a live block makes it live no more, its bytes free and zero, and nothing else different; a request of its size then succeeds or faults, but does not get NULL |
| `KernelHeap.KfreeIgnores` | student-distrib/mem.c:75-90 | a pointer at which no live block starts changes nothing |
| `KernelHeap.FreeUndoesMalloc` | student-distrib/mem.c:44-90 | freeing what was just handed out restores live blocks, free bytes and memory |
| `KernelHeap.KfreeKeeps` | student-distrib/mem.c:75-90 | kfree keeps the heap invariant for every pointer, allocated or not |
| `KernelHeap.KfreeFrame` | student-distrib/mem.c:75-90 | every other live block stays live with its bytes unchanged |
| `KernelHeap.StepKeeps` | student-distrib/mem.c:44-90 | every allowed kmalloc, kfree and client write keeps sortedness, partition, descriptor count and zeroed free bytes |
| `KernelHeap.After` | student-distrib/mem.c:44-90 | the heap after any run of allowed operations satisfies the invariant |
| `KernelHeap.InitialValid` | student-distrib/mem.c:232-257 | the initial heap satisfies the invariant |
| `KernelHeap.LiveBlockIsPrivate` | student-distrib/mem.c:44-90 | over any run that does not free it, a live block stays live and each of its bytes is the last one its owner stored, or what it held before |
| `Allocator.UnlinkAccounted` | student-distrib/mem.c:201-208 | taking a descriptor out keeps both lists linked both ways, their order, the other list and the in-use accounting |
| `Allocator.LinkAccounted` | student-distrib/mem.c:101-121 | the same for linking a descriptor in |
| `Allocator.SpareIff` | student-distrib/mem.c:132-145 | a descriptor is free exactly when the two lists hold fewer than 500 |
| `Allocator.KernelMemory.constructor` | student-distrib/mem.c:232-257 | builds the initial heap in valid links |
| `Allocator.KernelMemory.Remove` | student-distrib/mem.c:201-208 | the link stores and the zeroing, and nothing else |
| `Allocator.KernelMemory.AddRegion` | student-distrib/mem.c:101-121 | links the descriptor in before the first one with an address not below its own |
| `Allocator.KernelMemory.NewRegion` | student-distrib/mem.c:132-145 | NULL exactly when all descriptors are in use, otherwise a free one filled in |
| `Allocator.KernelMemory.Coalesce` | student-distrib/mem.c:50-53 | merges the visited block with its successor exactly when they touch |
| `Allocator.KernelMemory.Ltrim` | student-distrib/mem.c:158-172 | the left end of the block is taken, or the whole block out of the list |
| `Allocator.KernelMemory.Kmalloc` | student-distrib/mem.c:44-64 | the descriptors, links and bytes afterwards stand for the heap and reply of the first-fit specification, with valid links even after a fault |
| `Allocator.KernelMemory.Kfree` | student-distrib/mem.c:75-90 | the descriptors, links and bytes afterwards stand for the heap of the value-level kfree, which frees the block at the pointer or, where none starts, does nothing |
| `Grep.PiecesPrintLinesIff` | syscalls/ece391grep.c:29-57 | for every file and pattern, the pieces printed are in order and once each the matching lines of the whole file if and only if no line longer than 1024 bytes matches |
| `Grep.ExpectedPrintLinesIff` | syscalls/ece391grep.c:29-57 | the same for either value of the byte past the window: when it is a newline, also no matching line may lie across the first window end that is not a line end |
| `Grep.OutputPrintsLinesIff` | syscalls/ece391grep.c:48-51 | the bytes printed are those for the matching lines under the same condition |
| `Grep.HitIff` | syscalls/ece391grep.c:42-47 | a line matches if and only if it is some text, the pattern and some text; not at all for a pattern that starts with a byte above 127, and at a NUL for an empty one |
| `Grep.OutputIs` | syscalls/ece391grep.c:48-51 | what is printed: for each line that contains the pattern, in order, the name, a colon, the line up to its first NUL, and a newline |
| `Grep.LongLineIsCut` | syscalls/ece391grep.c:28-57 | a matching line of 1025 bytes that is not printed |
| `Grep.LinesJoin` | syscalls/ece391grep.c:31-32 | the lines put back together with newlines are the file |
| `Grep.LinesLack` | syscalls/ece391grep.c:31-32 | no line contains a newline, nor any other byte that the file does not contain |
| `Grep.StaleNewlineCuts` | syscalls/ece391grep.c:33 | a file without long lines and a pattern for which a stale newline past the window loses a line |
| `Grep.WindowStep` | syscalls/ece391grep.c:22-57 | one window's worth of pieces plus those of the text carried over are the pieces of the rest of the file |
| `Grep.Search.Read` | syscalls/ece391grep.c:22-26 | the next bytes of the file, short only at its end, or -1 |
| `Grep.Search.Strncmp` | syscalls/ece391support.c:41-52 | 0 exactly when the line at that place is the pattern and some text |
| `Grep.Search.CopyDown` | syscalls/ece391support.c:17-20 | the overlapping copy moves a string to the front intact and stops at its first NUL |
| `Grep.Search.Fdputs` | syscalls/ece391support.c:22-26 | prints a string up to its first NUL |
| `Grep.Search.SearchLine` | syscalls/ece391grep.c:40-51 | prints name, colon and line exactly when the pattern occurs in the line; of a line with NULs, what precedes the first one |
| `Grep.Search.ScanWindow` | syscalls/ece391grep.c:28-57 | for any bytes, stays inside the buffer, prints the pieces that end in the window and keeps the bytes of the last one, when it is to be continued and holds no NUL, at the front of the buffer |
| `Grep.Search.OnePass` | syscalls/ece391grep.c:21-59 | for every file, each pass asks for at least one byte, and stays inside buffer and file; for one without NULs, what it prints and what remains make up what remained before |
| `Grep.Search.DoOneFile` | syscalls/ece391grep.c:9-66 | for every file, the search ends within the buffer with the right result and message, and prints pieces that match; for every NUL-free one, whatever the buffer held, the output is that of the pieces of the whole file, and that of its matching lines if and only if the condition above holds; after a failed read, that of a prefix of the pieces and the message |
| `Processes.SpawnKeeps` | student-distrib/task.c:168-224 | a shell that starts keeps the process invariant; no two shells share a terminal |
| `Processes.SpawnStartsIff` | student-distrib/task.c:211-224 | a shell starts, in the first terminal without a process, if and only if it has a start address, a pid is left and there is such a terminal; otherwise the kernel is left as the current process |
| `Processes.NewTerminalIsFree` | student-distrib/keyboard.c:974-983 | the terminal given to a new shell has no live process |
| `Processes.ExecuteKeeps` | student-distrib/syscall.c:237-254 | execute keeps the invariant, whether it succeeds or not |
| `Processes.ExecuteRunsIff` | student-distrib/syscall.c:237-254 | an execute puts a child of the caller, with the next pid and in its terminal, on the processor if and only if the program has a start address and every live pid is below 99; otherwise nothing changes but the loaded pages |
| `Processes.FirstExecuteRuns` | student-distrib/kernel.c:254-257 | after up to ten shells from boot, a schedule and an execute, a child of the last shell has the processor |
| `Processes.HaltReady` | student-distrib/syscall.c:314-318 | the parent of a running user process is live and is either the kernel at its switch point or waits in execute |
| `Processes.HaltKeeps` | student-distrib/syscall.c:314-332 | halt and the return from execute that it causes keep the invariant, including that the return gives the halted child's status |
| `Processes.HaltReturns` | student-distrib/syscall.c:314-332 | after a halt the process is gone from table and queue, and its parent is current, with the status; a parent other than the kernel is active, shown, and returns that status |
| `Processes.ScheduleKeeps` | student-distrib/task.c:446-460 | a task switch keeps the invariant |
| `Processes.ScheduleGives` | student-distrib/task.c:446-460 | the first active task in the queue gets the processor with its pages and stack, the queue is turned past it, and of the others only the one that had the processor changes, in where it resumes |
| `Processes.ScheduleFrame` | student-distrib/task.c:413-441 | the target of a switch has never run exactly when it has a start address to go to, and one that has run resumes at the switch point; comparing addresses tells the two apart exactly unless the start address is that of the label |
| `Processes.ScheduleEndsIff` | student-distrib/task.c:452-456 | in every state of every run the loop of schedule ends if and only if a process other than the kernel is left |
| `Processes.LastShellGone` | student-distrib/task.c:452-456 | a run after which it does not end: the only shell has halted |
| `Processes.TerminalIsChain` | student-distrib/task.c:193-203 | the live processes of a terminal are one chain of parent links whose leaf is its only active process and the one it shows; a vacant terminal has none |
| `Processes.ChainClosed` | student-distrib/task.c:190-203 | ancestors are live, in the same terminal, idle, with smaller pids |
| `Processes.NewPidIsFresh` | student-distrib/task.c:169-181 | a new pid is larger than every live one |
| `Processes.SpawnFailureIff` | student-distrib/task.c:211-224 | a failed spawn keeps the invariant if and only if the kernel was the current process |
| `Processes.SpawnFailureHappens` | student-distrib/task.c:211-224 | a run from boot, with one and the same shell in all ten terminals, after which a failed spawn breaks it |
| `Processes.StepLoads` | student-distrib/task.c:148-156 | which actions leave the current process with its own page directory and kernel stack; a successful spawn leaves those of the new shell |
| `Processes.HeldIsCurrentIff` | student-distrib/task.c:211-235 | in every run the current process has its own pages, or its own kernel stack, if and only if no shell was started since they were last loaded for the process that is current; they always belong to a live process |
| `Processes.EveryRunIsSafe` | student-distrib/kernel.c:254-271 | in every state of every run: parents form a forest with pids growing away from the kernel, pids are unique, one chain per terminal, resume points are right, no jump goes astray, and every returning execute yields the status of its own child |
| `ProcessTable.ScheduleIsRoundRobin` | student-distrib/task.c:446-460 | the scheduling step is the round-robin step on the active tasks |
| `ProcessTable.Kernel.constructor` | student-distrib/task.c:79-103 | the kernel as only process satisfies the invariant |
| `ProcessTable.Kernel.NewPid` | student-distrib/task.c:169-177 | one more than the largest pid in the queue |
| `ProcessTable.Kernel.FindTerminal` | student-distrib/keyboard.c:974-983 | the first terminal that shows nothing or the kernel |
| `ProcessTable.Kernel.KernelSpawn` | student-distrib/task.c:211-224 | makes the spawn step, page directory and kernel stack included, and tells whether it could |
| `ProcessTable.Kernel.SyscallExecute` | student-distrib/syscall.c:237-254 | makes the execute step; -1 exactly when the program does not load or some live pid is 99 or more |
| `ProcessTable.Kernel.SyscallHalt` | student-distrib/syscall.c:314-332 | makes the halt step, with the jump to where the parent left off |
| `ProcessTable.Kernel.ReturnFromExecute` | student-distrib/syscall.c:255-259 | the parent is active and shown again and returns the stored status |
| `ProcessTable.Kernel.DoSchedule` | student-distrib/task.c:446-460 | makes the schedule step |
| `RoundRobin.ScheduledTurnsActives` | student-distrib/task.c:446-460 | one call picks the first active task and moves it behind all other active ones |
| `RoundRobin.RoundRobinOrder` | student-distrib/task.c:446-460 | while statuses do not change, call n picks active task number n modulo their number |
| `RoundRobin.ChosenSoon` | student-distrib/task.c:446-460 | an active task at position k is picked within k+1 calls |
| `RoundRobin.EachOnce` | student-distrib/task.c:446-460 | in any window of as many calls as there are active tasks each is picked exactly once |
| `RoundRobin.LoopEndsIff` | student-distrib/task.c:452-456 | the loop of schedule ends if and only if some task is active |
| `Runqueue.TaskQueue.PushHead` | student-distrib/task.c:323-339 | links and count stand for the sequence with the task in front |
| `Runqueue.TaskQueue.PushTail` | student-distrib/task.c:340-356 | links and count stand for the sequence with the task at the end |
| `Runqueue.TaskQueue.RemoveTask` | student-distrib/task.c:279-315 | links and count stand for the sequence without the task, wherever it was; NULL and no change if a queue of at most one does not hold it |
| `Runqueue.TaskQueue.NextTask` | student-distrib/task.c:399-406 | the head moves to the tail; NULL for an empty queue |
| `Runqueue.TaskQueue.PickTask` | student-distrib/task.c:453-456 | the linked queue is turned until just past its first active task, which is returned |
| `LinkedKernel.System.constructor` | student-distrib/task.c:79-103 | the kernel's own task alone in the linked queue, idle, stands for the state at boot |
| `LinkedKernel.System.AddTask` | student-distrib/task.c:268-277 | a new active task in front of the linked queue |
| `LinkedKernel.System.Spawn` | student-distrib/task.c:211-224 | the spawn step on processes and linked queue together |
| `LinkedKernel.System.Execute` | student-distrib/syscall.c:237-254 | the execute step: the task of the child is added and that of its parent idled |
| `LinkedKernel.System.Halt` | student-distrib/syscall.c:314-332 | the halt step: the task of the child leaves the queue and that of its parent is active again |
| `LinkedKernel.System.DoSchedule` | student-distrib/task.c:446-460 | the linked queue picks the task of the process that the schedule step makes current |
| `LinkedKernel.System.Perform` | student-distrib/task.c:446-460 | after every step the tasks, their links and which of them are active stand for the runqueue and the statuses of the processes, one task for each process |
| `LinkedKernel.System.Run` | student-distrib/kernel.c:254-271 | every run of the processes, made on the linked queue, ends in the same state |
| `LinkedKernel.HaltCoupled` | student-distrib/syscall.c:314-332 | taking out the child's task and waking its parent's keeps the two queues matched |
| `LinkedKernel.ExecuteCoupled` | student-distrib/syscall.c:237-254 | adding the child's task and idling its parent's keeps the two queues matched |
| `FileSystem.ContentsAreFlat` | student-distrib/fs.c:146-171 | the contents of a file are the concatenation of its blocks cut to its length |
| `FileSystem.SoundIff` | student-distrib/fs.c:125-128 | a file can be read in full exactly when it has less than 4 MB and the blocks that its length takes up exist |
| `FileSystem.AnswersIff` | student-distrib/fs.c:114-173 | -1 exactly when the file is too long or a block of the requested slice does not exist; otherwise the size of the slice |
| `FileSystem.OverrunIff` | student-distrib/fs.c:125-128 | a part of a file is readable whatever follows the inode in memory if and only if its blocks exist and it ends within the 1023 listed ones |
| `FileSystem.ReadData` | student-distrib/fs.c:114-173 | for every offset and signed length, the buffer gets exactly the slice of the file, or the part of it before the first missing block, and changes nowhere else |
| `Descriptors.ReadDentryByName` | student-distrib/fs.c:64-89 | the first entry with the name, and -1 for names that are empty, longer than 32 bytes or absent |
| `Descriptors.SameName` | student-distrib/lib.c:619-636 | the bounded comparison is equality of the padded names |
| `Descriptors.SameDevice` | student-distrib/syscall.c:149-169 | the comparison with a device name is equality |
| `Descriptors.OpenIsFresh` | student-distrib/syscall.c:189-224 | a name other than those of the two terminals opens at position 0 on the lowest free descriptor, above 1, and changes no other |
| `Descriptors.OpenNamed` | student-distrib/syscall.c:189-224 | the first entry that bears a name decides: a file opens to be read as that entry's inode, a directory as a directory, the clock for reading and writing, on the lowest free descriptor; -1 exactly when none is free |
| `Descriptors.OpenAbsent` | student-distrib/syscall.c:189-193 | names that are empty, longer than 32 bytes or borne by no entry give -1 and change nothing |
| `Descriptors.OpenDevice` | student-distrib/syscall.c:149-188 | standard input opens to be read, standard output to be written, the clock for both |
| `Descriptors.FileDelivers` | student-distrib/syscall.c:189-224 | over every run the reads of what was opened by name deliver the contents of that entry's inode, from the start to the position reached; with positive sizes that is their sum or the end |
| `Descriptors.ReadTouches` | student-distrib/syscall.c:274-281 | a read moves at most the position of its own descriptor, that of a directory by one |
| `Descriptors.CloseFrees` | student-distrib/syscall.c:345-353 | a close frees its descriptor and leaves the others alone; -1 for 0, 1 and descriptors not in use |
| `Descriptors.ClosedIsReused` | student-distrib/syscall.c:458-466 | what was closed is what the next open gets when all lower ones are in use |
| `Descriptors.StdStaysOpen` | student-distrib/syscall.c:345-353 | descriptors 0 and 1 are open after every run of opens, reads and closes |
| `Descriptors.StreamIsSlice` | student-distrib/fs.c:175-179 | over every run of opens, reads and closes of other descriptors, the reads of one deliver the bytes between its first and last position, without gap or repetition |
| `Descriptors.ChunkingIrrelevant` | student-distrib/fs.c:175-179 | with positive request sizes the final position depends only on their sum |
| `Descriptors.ZeroExactlyAtEnd` | student-distrib/fs.c:175-179 | a positive request delivers nothing exactly at the end of the file |
| `Descriptors.ReadGives` | student-distrib/fs.c:114-179 | a read of n bytes of a sound file gives the next n or those left, all that are left for a negative n, and moves the position past them |
| `Descriptors.NewPosIff` | student-distrib/fs.c:175-179 | from every 32-bit position, the one a failed read leaves included, the position advances by what was delivered if and only if the request can be answered |
| `Descriptors.FailedReadMovesBack` | student-distrib/fs.c:175-179 | in a file whose second block is missing, a read of 4096 bytes leaves position 4096 and the next read moves it back to 4095 |
| `Descriptors.Process.FindNewFd` | student-distrib/syscall.c:458-466 | the lowest descriptor not in use, or -1 |
| `Descriptors.Process.SyscallOpen` | student-distrib/syscall.c:147-225 | the table and result of an open for every name: the two terminals and the clock by their names, files, directories, names that are absent |
| `Descriptors.Process.SyscallClose` | student-distrib/syscall.c:345-353 | frees a descriptor in use, never 0 or 1 |
| `Descriptors.Process.FileRead` | student-distrib/fs.c:175-179 | bytes, count and new position, also for a read that fails |
| `Descriptors.Process.SyscallRead` | student-distrib/syscall.c:274-281 | reads through a valid, readable descriptor, with count and bytes of a regular file or its -1, and -1 otherwise |
| `Loader.SecondRead` | student-distrib/task.c:65-69 | the check of the second read never fails; the whole file was read exactly when all its blocks exist |
| `Loader.ProgramStartsIff` | student-distrib/task.c:51-72 | a sound file that fits starts at a given address if and only if it has 40 bytes, begins with 7F 45 4C 46, and bytes 24 to 27 are that address, not 0; otherwise NULL |
| `Loader.TruncatedProgramStarts` | student-distrib/task.c:65-69 | a file that starts at 0x08048100 although only its first block exists, whatever the pid |
| `Loader.ImageWritten` | student-distrib/task.c:148-150 | where bytes stored from the program start on land through the pages of each process, and that all of them do if and only if they fit the page, or the pid is 30 or 46 to 51 |
| `Loader.LoadInode` | student-distrib/task.c:51-72 | memory afterwards for every inode, and NULL exactly without a readable header and the magic number or when the little-endian word at bytes 24 to 27 is 0, a page fault exactly when the bytes that exist do not all have a place, and otherwise that word |
| `Loader.LoadProgram` | student-distrib/task.c:38-72 | the same by name, with the file stored even when its entry word is 0; NULL and no change in memory for absent names and entries that are not files; a sound program that fits is installed |
| `Loader.ProgramIsInstalled` | student-distrib/task.c:256-259 | a program that fits is what its process reads in user mode from 0x08048000 on, byte for byte, and nothing outside its page has changed: no page of another process, and for pids up to 46 no kmalloc storage |
| `Loader.ProgramTranslates` | student-distrib/paging.c:79-84 | the program's virtual addresses translate to where it was loaded |
| `Loader.LoadStaysInPageIff` | student-distrib/task.c:257-259 | what is stored lands in the page of the process if and only if it fits or the pid is not 46 to 51 |
| `Loader.LoadHitsHeapIff` | student-distrib/paging.c:62-84 | kmalloc storage is overwritten if and only if the pid is 47 to 52, or 46 and the program does not fit |
| `Loader.PagesDisjoint` | student-distrib/paging.c:79-84 | the pages of two processes are disjoint |
| `Loader.PageClearOfHeapIff` | student-distrib/paging.c:62-84 | a process page avoids the kmalloc storage if and only if the pid is not 47 to 52 |
| `Paging.EntryParts` | student-distrib/paging.c:117-137 | an entry has the frame of its address and the bits of its flags |
| `Paging.TablesApart` | student-distrib/paging.h:23-26 | the tables of all processes lie apart from each other and from all page directories |
| `Paging.InitTranslates` | student-distrib/paging.c:49-88 | for every user pid and all 2^32 addresses, translation is identity on 4 kB to 8 MB, on the kmalloc range and on the process's page, maps 128 to 132 MB to that page, and faults elsewhere, with the user bit of each |
| `Paging.KernelTranslates` | student-distrib/paging.c:49-88 | through the kernel's own directory all addresses from 4 kB to 404 MB are identity, the first 4 MB with the user bit, and others fault |
| `Paging.InitWritable` | student-distrib/paging.c:49-84 | nothing that is mapped is read-only, for the kernel and every process |
| `Paging.Map4mbTranslates` | student-distrib/paging.c:146-160 | the 4 MB around the address lead to the given ones and no other translation changes |
| `Paging.RemapTranslates` | student-distrib/paging.c:195-222 | after a remap exactly one virtual page is reached through the table; other addresses translate as before |
| `Paging.VidmapTranslates` | student-distrib/syscall.c:393-407 | the video page is seen at 256 MB and no other translation changes except in its 4 MB |
| `Paging.PageTables.Map4mbPage` | student-distrib/paging.c:146-160 | one directory entry of one process, with the user bit as asked |
| `Paging.PageTables.Map4kbPage` | student-distrib/paging.c:170-185 | one directory and one table entry, with the user bit whatever is asked |
| `Paging.PageTables.ClearPageTable` | student-distrib/paging.c:206-222 | entries of the table and directory entries that name it are cleared, nothing else |
| `Paging.PageTables.Remap4kbPage` | student-distrib/paging.c:195-199 | clearing, then mapping; other processes unchanged |
| `Paging.PageTables.InitPaging` | student-distrib/paging.c:49-84 | the loops build exactly the specified entries for all 100 processes |
| `LineEditor.PressKeeps` | student-distrib/keyboard.c:178-404 | every key that stays inside the history array keeps the line free of NULs, at most 1912 bytes long, and the history in range |
| `LineEditor.HistoryIsLastLines` | student-distrib/keyboard.c:487-502 | after any run of keys the history is the last min(n, 16) lines entered, in order |
| `LineEditor.RecallBrings` | student-distrib/keyboard.c:541-567 | after any run of keys, of the last n lines entered, up to 16, a recall that lands on position i brings back the i-th, oldest first, and position n an empty line; other positions are refused |
| `LineEditor.EnterStarts` | student-distrib/keyboard.c:483-534 | Enter adds the line to the history and leaves an empty one, at the position after the last |
| `LineEditor.PushAllIsLast` | student-distrib/keyboard.c:490-501 | pushing lines into a full history keeps the last 16 |
| `LineEditor.CursorKeepsText` | student-distrib/keyboard.c:178-217 | moving the cursor does not change the text |
| `LineEditor.TypeInserts` | student-distrib/keyboard.c:290-300 | a character goes in at the cursor when there is room |
| `LineEditor.BackspaceRemoves` | student-distrib/keyboard.c:445-462 | the character before the cursor goes, and nothing at the start |
| `LineEditor.CursorMoves` | student-distrib/keyboard.c:178-217 | left and right move one place within the line, Home to its start |
| `LineEditor.KillCuts` | student-distrib/keyboard.c:342-355 | the line ends at the cursor |
| `LineEditor.LeftThenRight` | student-distrib/keyboard.c:178-217 | right undoes left |
| `LineEditor.TypeThenBackspace` | student-distrib/keyboard.c:445-478 | backspace undoes a typed character anywhere in the line |
| `LineEditor.DeliveryIs` | student-distrib/keyboard.c:504-522 | a read gets the line without trailing spaces, with a newline exactly when there were none |
| `LineEditor.OutsideIff` | student-distrib/keyboard.c:541-556 | a key reads a slot past the history array exactly when it recalls the top position of a full history |
| `LineEditor.StaysIff` | student-distrib/keyboard.c:541-567 | a run of keys stays inside the array if and only if no recall in it goes back to the top position after 16 lines have been entered, which the keys alone decide |
| `LineEditor.UpThenDownLeavesArray` | student-distrib/keyboard.c:541-556 | 16 or more times Enter, up and down leaves it |
| `TerminalBuffer.Strncpy` | student-distrib/lib.c:676-692 | the copy holds the same line, padded with NULs |
| `TerminalBuffer.Terminal.constructor` | student-distrib/keyboard.c:852-884 | zeroed memory is an empty editor |
| `TerminalBuffer.Terminal.PressType` | student-distrib/keyboard.c:290-300 | the shifted array holds the line with the character at the cursor |
| `TerminalBuffer.Terminal.PressBackspace` | student-distrib/keyboard.c:445-462 | the shifted array holds the line without the character before the cursor |
| `TerminalBuffer.Terminal.PressLeft` | student-distrib/keyboard.c:178-196 | the cursor step, stopping at the start |
| `TerminalBuffer.Terminal.PressRight` | student-distrib/keyboard.c:199-217 | the cursor step, stopping at the end |
| `TerminalBuffer.Terminal.PressHome` | student-distrib/keyboard.c:333-339 | the cursor at the start |
| `TerminalBuffer.Terminal.PressKill` | student-distrib/keyboard.c:342-355 | the text after the cursor is gone and its bytes are NUL |
| `TerminalBuffer.Terminal.PushHistory` | student-distrib/keyboard.c:487-501 | the slots hold the history with the line pushed |
| `TerminalBuffer.SizeIsNoSpace` | student-distrib/keyboard.c:511-516 | the byte in front of the buffer, which the loop may test before its index, is never a space |
| `TerminalBuffer.Terminal.Deliver` | student-distrib/keyboard.c:504-522 | the read buffer holds the delivered line |
| `TerminalBuffer.Terminal.PressEnter` | student-distrib/keyboard.c:483-534 | history, delivery and an empty line, in the arrays |
| `TerminalBuffer.Terminal.PressRecall` | student-distrib/keyboard.c:541-567 | recalling a position puts that line in the buffer with its length as size, the top position an empty one; the slot read is past the array exactly in the case above |
| `TerminalBuffer.Terminal.KeyboardRead` | student-distrib/keyboard.c:684-700 | as much of the delivery as fits, padded with NULs, once |
| `Screens.ScreensAreSeparate` | student-distrib/keyboard.c:912-1077 | over every run of switches by key and by mouse, page ups, page downs, resets and writes, the live screen of each terminal is what its own writes alone make of it, and a reset shows it |
| `Screens.StepKeeps` | student-distrib/keyboard.c:235-256 | each step keeps the display in order and changes a live screen only by its own write; only a switch by mouse lets the offset and the page shown differ |
| `Screens.KeySwitchKeeps` | student-distrib/keyboard.c:246-256 | a switch by key keeps all live screens |
| `Screens.AdjustKeeps` | student-distrib/keyboard.c:1020-1042 | scrolling keeps all live screens |
| `Screens.PageKeys` | student-distrib/keyboard.c:235-243 | page up shows the page one further up, to the fifth, page down the one further down, to the live screen |
| `Screens.PageUpThenDown` | student-distrib/keyboard.c:235-243 | page down undoes page up |
| `Screens.WriteShows` | student-distrib/keyboard.c:716-733 | a write of the visible terminal brings its live screen back and shows there; one of another terminal changes nothing on the screen |
| `Screens.ResetKeeps` | student-distrib/keyboard.c:1047-1077 | the reset shows the live screen again and keeps all of them |
| `Screens.SwitchKeeps` | student-distrib/status.c:147-151 | a switch by mouse, which resets nothing, keeps all live screens |
| `Screens.KeysKeepInStep` | student-distrib/keyboard.c:235-256 | over every run without mouse switches each terminal shows the page that its offset says |
| `Screens.MouseSwitchIff` | student-distrib/status.c:147-151 | a switch without reset keeps the screen showing the page that the terminal's offset says if and only if nothing is scrolled or nothing switched |
| `Screens.MouseSwitchShowsOlder` | student-distrib/status.c:147-151 | otherwise a terminal left with the mouse and entered again with a key shows the older page, and the next reset its live screen |
| `Screens.VideoMemory.AdjustScrollbackPage` | student-distrib/keyboard.c:1020-1042 | makes the scrolling step on the pages and the video memory |
| `Screens.VideoMemory.SetScrollbackPage` | student-distrib/keyboard.c:1047-1068 | makes the setting step |
| `Screens.VideoMemory.SwitchTerminals` | student-distrib/keyboard.c:912-968 | makes the switching step |
| `Screens.VideoMemory.PressSwitch` | student-distrib/keyboard.c:246-256 | makes the switch by key |
| `Screens.VideoMemory.WriteCell` | student-distrib/keyboard.c:716-733 | a character goes to the screen of its own terminal only |
| `Floppy.Drive.DiskWrite` | student-distrib/fdc.c:463-489 | 0 exactly when all cylinders reached work, and then the disk stores the bytes; cylinders past the last one written are untouched, none above 79 is used; -1 without a drive or for too many bytes |
| `Floppy.Drive.DiskRead` | student-distrib/fdc.c:494-520 | 0 exactly when all cylinders reached work, and then the buffer holds what the disk stores; no byte past the request changes |
| `Floppy.Drive.WriteThenRead` | student-distrib/fdc.c:463-520 | for every size up to the whole disk, what was written comes back |
| `Floppy.StoresIff` | student-distrib/fdc.c:463-489 | the disk stores a text exactly when its cylinders, one after the other, begin with it |
| `Numbers.ItoaRoundTrip` | student-distrib/lib.c:391-424 | for every number and radix 2 to 36, decoding gives back the number, without a leading zero unless it is zero |
| `Numbers.DigitsAreDigits` | student-distrib/lib.c:391-424 | every character printed is that of a digit below the radix in the lookup table |
| `Numbers.WordDigits` | student-distrib/lib.c:391-424 | a 32-bit number needs at most 32 digits, at most 8 in hexadecimal |
| `Numbers.Strrev` | student-distrib/lib.c:427-443 | the string is reversed in place and nothing else changes |
| `Numbers.Itoa` | syscalls/ece391support.c:54-88 | the buffer holds the digits and a NUL |
| `Numbers.PrintHex8` | student-distrib/lib.c:225-244 | the alternate format prints exactly eight digits with the same value |

## Left out

- `Grep.Search.DoOneFile`: which lines of a file with NUL bytes are printed, since the string copy of the carry-over stops at the first NUL and what the buffer held before shows up behind it; and the loop over the directory in `main`.
- `Processes.EveryRunIsSafe`: runs in which a spawn fails while a user process is current, and schedule calls with no active task; their exact conditions are proved beside it.
- `LineEditor.HistoryIsLastLines`: what a recall past the history array reads; where the screen cursor goes on each key.
- `Screens.ScreensAreSeparate`: attributes of cells, scrolling of a full screen, and where the next character goes.
- `Descriptors.Process.SyscallRead`: what reads of terminals, clocks and directories put into the buffer.
- `ProcessTable.Kernel.SyscallHalt`: register contents, what is on the stacks, and parsing of the command line.
- Clicks on the line, tab completion and the status bar.
- `rtc.c`, `pit.c`, `mouse.c`, `i8259.c`, `sb16.c`, the floppy controller's commands and status bytes, boot code.
- `efs.c`, which is unfinished, and the debugging helpers of `fs.c`.
- `Loader.LoadProgram`: loading into pages that an earlier process with the same pid has changed by vidmap, and what the handler of a page fault does.
- Vidmap remapping when terminals are switched.
- `printf` formats other than the two hexadecimal ones, and the other string routines of `lib.c`: `printf` hands its other arguments to `itoa` and `puts`, and nothing modelled here calls those routines.
- `LinkedKernel.System.AddTask`: a failing `kmalloc` of the task, whose result the code does not check.
- Contents of program files beyond their header; nothing executes.
