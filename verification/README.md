# chapOS: a verification model

chapOS is a small kernel for 32-bit x86 with its user programs. This project models the parts of it
that keep state over many calls and proves what they promise over whole runs.

| file | what it models |
|---|---|
| Machine.dfy | processes, descriptors and memory as an abstract stack machine, and what holds over its runs |
| Stores.dfy | bytes that the kernel stores through the page tables, and what they leave alone |
| Pcbs.dfy | process control blocks as bytes of physical memory |
| Kernel.dfy | the system calls on process ids, PCBs, esp0 and page tables; every harmless run refines the machine |
| Calls.dfy | what a program sees of its system calls, in addresses, file types, descriptors and bytes |
| CommandLine.dfy | how execute takes a command line apart |
| Paging.dfy | the page tables and the processor's walk through them |
| FileSystem.dfy | block-wise file reads and the directory |
| Screen.dfy | the text screen as a window onto an unbounded page |
| Terminal.dfy | the line editor and three terminals on one screen, one cursor and one key index |
| Blink.dfy | the blinking characters of the fish program and their node pool |
| Grep.dfy, Search.dfy | the streaming search, alone and on the kernel's file system |
| Memory.dfy, Numbers.dfy | the optimised memory routines and number conversion |
| Bytes.dfy, Arithmetic.dfy, Sizes.dfy | C strings, slices, division facts and shared sizes |

Code that changes things in place is modelled by classes and array methods. Their contracts tie the
new state to a function of the old one, and the properties over runs are lemmas about these functions.
`dafny verify dfyconfig.toml` checks the project.

An event is harmless (`Machine.Harmless`) when the bytes that read or getargs store keep out of the
kernel's page, and the words of an execute fit its buffers. `Machine.PoliteRunIsHarmless` gives a
range of buffers that a caller can check.

## Where the code differs from its intent

The model follows the code. Each of these is stated exactly.

- A read across the end of a file delivers one byte more than the file has
  (chapOS/student-distrib/file_sys_module.c:170): `FileSystem.DeliversFile`, `FileSystem.ReadsAreExact`.
- read and getargs do not check where their buffer lies
  (chapOS/student-distrib/system_call.c:489, chapOS/student-distrib/file_sys_module.c:184), so a
  program can have the kernel store into its PCBs: `Stores.KernelPageKeptExactly` says exactly when
  that leaves them alone, `Kernel.UncheckedBufferBreaksRecords` gives a call that does not.
- execute copies words of any length into buffers of 10 and 100 bytes
  (chapOS/student-distrib/system_call.c:191-227): `CommandLine.Parse` finds out exactly which fit.
- grep cuts lines at 1024 bytes (chapOS/syscalls/ece391grep.c:20-60): `Grep.WindowIsExact`,
  `Grep.LongLineIsSplit`. The byte behind a file can make its last line match or be printed longer:
  `Grep.DeliveredIsExact`, `Grep.SlackIsPrinted`. A NUL in a carried line cuts the copy, and a newline
  that happens to stand behind the first window cuts a line: `Grep.SeenExactly` says exactly when
  neither changes what is searched, `Grep.NulLosesMatch` gives a file whose match is lost.
- A backspace with the cursor at the start of row 1 moves the cursor and leaves the character
  (chapOS/student-distrib/keyboard.c:526): `Screen.BackRefinesPage`, `Screen.TypeThenErase`.
- A read of 128 bytes or more of a line of 128 keys returns 0 (chapOS/student-distrib/keyboard.c:738-753):
  `Terminal.ReadDeliversLine`. Enter at 128 pending keys writes behind the buffer
  (chapOS/student-distrib/keyboard.c:464), which may be another terminal's, as the three lie in one
  file (chapOS/student-distrib/keyboard.c:20-22): `Terminal.LeaveAndReturn`, `Terminal.OverrunTakesLine`.
- Blinking lengths of 0 and above 32768 last one tick (chapOS/fish/blink.S:60-91):
  `Blink.BlinksAsDocumented`.
- An item at location 0 passes the range check and looks free to the allocator (chapOS/fish/blink.S:132,
  chapOS/fish/fish.c:165): `Blink.AddKeepsListExactly`, `Blink.AddAtZeroLoops`.
- A sync always draws the off character (chapOS/fish/blink.S:281-282): `Blink.SyncDrawsOff`.
- The frame of process 5 holds the terminals' pages (chapOS/student-distrib/paging.c:126,
  chapOS/student-distrib/paging.h:25): `Machine.SaveKeepsImageExactly`, `Paging.AliasesExactly`. Any program
  can write to the mapped page (chapOS/student-distrib/paging.c:37): `Machine.PageKeptExactly`,
  `Machine.SavedScreenReturns`.
- getargs compares the size as an unsigned word and an argument that just fits takes one byte more
  (chapOS/student-distrib/system_call.c:571): `Machine.GetArgsStaysInside`, `Machine.JustFittingArgument`.

## Model

| member | source | states |
|---|---|---|
| Machine.ExecuteHaltBrackets | chapOS/student-distrib/system_call.c:60-374 | Whatever run of harmless system calls lies between, when the process that an execute created halts, its creator is back with all processes, arguments, descriptors and its image bytes as they were, the frame found is the one saved by that execute, and until then the child has the argument of its own command line |
| Machine.HaltUndoesPush | chapOS/student-distrib/system_call.c:60-135 | The same for any new process on the stack: reaching its depth again and halting restores the stack below it |
| Machine.RunSparesSuspended | chapOS/student-distrib/system_call.c:60-592 | While children of a process run, execute, open, read into any buffer outside the kernel's page, map and halt, its records, its descriptors and its image bytes stay as they are |
| Machine.PoliteRunIsHarmless | chapOS/student-distrib/system_call.c:484-500 | Calls whose buffers end below 4MB or start at 8MB or above, and whose command words fit, make a harmless run, in whatever order and state they come |
| Machine.PoliteIsHarmless | chapOS/student-distrib/system_call.c:484-500 | The same for one call: the range can be checked before it |
| Machine.ReadIsBounded | chapOS/student-distrib/system_call.c:484-500 | A read stores at most as many bytes as were asked for, or one name of 32 bytes |
| Machine.ChangeSparesSuspended | chapOS/student-distrib/system_call.c:60-592 | One step changes nothing of a suspended process, nor frame and argument of the process above it |
| Machine.Run | chapOS/student-distrib/system_call.c:60-374 | Over every run there are one to six processes, and the newest one runs in its own image |
| Machine.StepIsChange | chapOS/student-distrib/system_call.c:60-592 | Every harmless event is a change of the running process's descriptors and of memory outside suspended images, a push, a pop, or the restart of the last process |
| Machine.ProcessStepIsChange | chapOS/student-distrib/system_call.c:60-374 | Execute pushes one process or changes nothing; halt pops one, or replaces the last |
| Machine.OtherStepIsLocal | chapOS/student-distrib/system_call.c:383-592 | Open, close, read, getargs, vidmap, terminal copies and stores of the program only touch descriptors of the running process and leave the images of all other processes 0 to 4 alone |
| Machine.ExecuteSavesFrame | chapOS/student-distrib/system_call.c:297-328 | A new process records the caller's frame and its own argument and starts with no descriptor open from 2 on |
| Machine.HaltPops | chapOS/student-distrib/system_call.c:60-135 | Halting above a stack of processes gives back that stack and its image mapping, with memory unchanged |
| Machine.LastHaltRestarts | chapOS/student-distrib/system_call.c:103-114 | Halting process 0 leads to one process again exactly when the file system has an executable shell, and that process has the frame of that execute, the shell's argument and no open files |
| Machine.OpenFailsWhenFull | chapOS/student-distrib/system_call.c:413-475 | For a name that exists, open fails exactly when descriptors 2 to 7 are all open; otherwise it returns the lowest closed one, which then is open |
| Machine.LowestClosed | chapOS/student-distrib/system_call.c:413-428 | The slot that open takes is closed and every lower one is open |
| Machine.TerminalPagesAreInFrame5 | chapOS/student-distrib/paging.c:31-40 | Among the frames of the six processes exactly that of process 5 holds the pages behind the terminals |
| Machine.SaveKeepsImageExactly | chapOS/student-distrib/keyboard.c:168-186 | Saving a terminal keeps the running program's image if and only if it is not process 5 or the page already equals the screen |
| Machine.PageKeptExactly | chapOS/student-distrib/keyboard.c:137-186 | One harmless event leaves the page behind a terminal as it is if and only if it is none of these: a save of that terminal or a store, read, getargs or vidmap that puts a byte there which was not there before |
| Machine.RunKeepsPage | chapOS/student-distrib/keyboard.c:137-186 | The page survives every run without such an event |
| Machine.SavedScreenReturns | chapOS/student-distrib/keyboard.c:137-186 | Saving a terminal, running anything and restoring it brings its screen back if and only if its page has the same bytes again |
| Machine.ScreenSurvivesRun | chapOS/student-distrib/keyboard.c:137-186 | So the screen of a terminal survives, in physical memory, every run that does not overwrite its page |
| Stores.KernelPageKeptExactly | chapOS/student-distrib/system_call.c:484-500 | For every buffer and all bytes: what read and getargs store leaves the kernel's page from 4MB to 8MB, with all PCBs, as it is if and only if no byte lands in it or those that do are there already |
| Stores.TerminalPageKeptExactly | chapOS/student-distrib/paging.c:31-40 | For every address and all bytes: the kernel's stores leave a terminal's page as it is if and only if every byte that lands in it is there already |
| Stores.AreaKeptExactly | chapOS/student-distrib/system_call.c:484-500 | The same for any area in which no two stores of a call meet |
| Stores.WrittenSparesImages | chapOS/student-distrib/paging.c:47-130 | No store of the kernel for a program reaches the image of another process from 0 to 4 |
| Pcbs.OutsideWritten | chapOS/student-distrib/system_call.c:484-500 | Stores that spare the kernel's page keep all PCBs and act on the rest of memory alone |
| Pcbs.FdFieldPut | chapOS/student-distrib/file_sys_module.c:235-252 | A word stored at a descriptor's address changes one field of one descriptor of one PCB |
| Pcbs.BecomesChanges | chapOS/student-distrib/system_call.c:291-328 | A change inside one PCB leaves the other five and the memory of the programs as they are |
| Pcbs.PutGet | chapOS/student-distrib/system_call.c:291-328 | A little-endian word reads back as it was stored |
| Pcbs.PutBytes | chapOS/student-distrib/system_call.c:291-328 | Its four bytes stand in memory from the lowest on |
| Kernel.PcbMaskRoundsDown | chapOS/student-distrib/system_call.c:634-645 | Masking a 32-bit word with 0xFFFFE000 rounds it down to a multiple of 8192 |
| Kernel.MaskFindsPcb | chapOS/student-distrib/system_call.c:634-645 | Any stack pointer inside the kernel stack of process id, masked, is the address of its PCB |
| Kernel.Kernel.GetPcbPtr | chapOS/student-distrib/system_call.c:634-645 | In every valid state and for every esp on the current kernel stack the masked pointer is the PCB that active_proc_num addresses |
| Kernel.Kernel.GenNewProcId | chapOS/student-distrib/system_call.c:611-625 | Takes the lowest free id, or returns -1 with the flags unchanged when none is free |
| Kernel.FullFlags | chapOS/student-distrib/system_call.c:611-625 | When the live ids are 0..k-1 and no flag is free, all six are taken |
| Kernel.NextFlag | chapOS/student-distrib/system_call.c:611-625 | When the live ids are 0..k-1, the lowest free one is k, and taking it leaves 0..k |
| Kernel.PopFlag | chapOS/student-distrib/system_call.c:69-70 | Freeing the newest id leaves 0..k-1 |
| Kernel.Kernel.FindProgram | chapOS/student-distrib/system_call.c:181-258 | For every command line whose words fit: finds exactly the executable that the first word names, and its argument |
| Kernel.Kernel.IsElf | chapOS/student-distrib/system_call.c:243-258 | The first four bytes, put together by shifts, equal the ELF number exactly when the file delivers these four bytes |
| Kernel.MagicBytes | chapOS/student-distrib/system_call.c:246-255 | The number made from four bytes is 0x7F454C46 exactly for the bytes 7F 45 4C 46 |
| Kernel.Kernel.StoreImage | chapOS/student-distrib/system_call.c:275-278 | Storing bytes through the page tables at 0x08048000 puts them into the frame of the mapped process |
| Kernel.Kernel.LoadImage | chapOS/student-distrib/system_call.c:275-278 | The whole file, byte for byte, ends up behind the load address and nothing else changes |
| Kernel.Kernel.FillPcb | chapOS/student-distrib/system_call.c:291-328 | The stores of execute into the new PCB leave it, in memory, with the saved frame, the argument, the parent's number and frame and descriptors 0 and 1; nothing else changes |
| Kernel.NewRepresents | chapOS/student-distrib/system_call.c:291-328 | That PCB stands for a process with only descriptors 0 and 1 open, although slots 2 to 7 are not cleared |
| Kernel.UncheckedBufferBreaksRecords | chapOS/student-distrib/system_call.c:561-579 | A getargs that a process without an argument calls with the argument of another process in the kernel's page as its buffer returns 0 and breaks the records: that PCB no longer stands for its process |
| Kernel.Kernel.AddProcess | chapOS/student-distrib/system_call.c:280-340 | Filling the PCB, setting the active process and esp0 makes the stack one process higher |
| Kernel.Kernel.MapAndLoad | chapOS/student-distrib/system_call.c:273-278 | Maps the new process's frame and loads the file into it |
| Kernel.Kernel.Install | chapOS/student-distrib/system_call.c:273-340 | Mapping, loading and filling the PCB together push one process |
| Kernel.Kernel.Execute | chapOS/student-distrib/system_call.c:154-374 | For every command line: keeps the kernel valid and pushes the named program with its argument and the caller's frame, or leaves every record as it was when there is no such program or no free id; words that do not fit the buffers are found out before anything has changed |
| Kernel.Kernel.CloseFd | chapOS/student-distrib/system_call.c:534-558 | Clears the flag of an open descriptor from 2 on and nothing else; otherwise returns -1 |
| Kernel.Kernel.CloseAll | chapOS/student-distrib/system_call.c:72-77 | Closes every descriptor from 2 on and leaves the rest of the PCB |
| Kernel.Kernel.Release | chapOS/student-distrib/system_call.c:64-80 | Gives back the id and the files; the PCB still knows its parent and the frame to resume |
| Kernel.Kernel.PopState | chapOS/student-distrib/system_call.c:64-96 | Leaves the parent active and mapped, with esp0 at the top of its kernel stack |
| Kernel.Kernel.Halt | chapOS/student-distrib/system_call.c:60-135 | Pops the running process and resumes the frame saved when it was created, with its low status byte and 256 in place of 1; for process 0 executes a new shell instead |
| Kernel.Kernel.FreeSlot | chapOS/student-distrib/system_call.c:413-428 | Finds the lowest free descriptor from 2 on, or 8 |
| Kernel.Kernel.Open | chapOS/student-distrib/system_call.c:383-475 | Opens the named file at the lowest free descriptor with its kind, inode and position 0, or returns -1 and changes nothing; `Calls.OpenOpens` says what that descriptor is |
| Kernel.Kernel.OpenAt | chapOS/student-distrib/system_call.c:430-471 | Fills one descriptor of the running process; the inode only counts for regular files |
| Kernel.ChangeFd | chapOS/student-distrib/system_call.c:430-471 | Changing a descriptor from 2 on in the active PCB changes just that slot of the newest process |
| Kernel.Kernel.Close | chapOS/student-distrib/system_call.c:534-558 | Closes an open descriptor from 2 on and returns 0, or changes nothing and returns -1 |
| Kernel.Kernel.Fill | chapOS/student-distrib/system_call.c:484-500 | For every buffer that misses the page tables: bytes are stored through them with the kernel's rights, up to the first fault |
| Kernel.Kernel.Deliver | chapOS/student-distrib/system_call.c:484-500 | When the kernel's page is spared, that acts on the memory of the programs and keeps all records |
| Kernel.Kernel.Read | chapOS/student-distrib/system_call.c:484-500 | Does what the machine says: stores at the caller's buffer what the keyboard, file or directory delivers (`Terminal.ReadDeliversLine`, `Calls.NamedFileIsRead`, `Calls.NamedDirectoryIsRead`) and advances only its position; -1 when it is not open or the buffer is NULL |
| Kernel.Kernel.ReadFile | chapOS/student-distrib/file_sys_module.c:235-252 | On a file: the bytes from the position on and the advanced position, modulo 2^32 |
| Kernel.Kernel.ReadDirectory | chapOS/student-distrib/file_sys_module.c:297-322 | On a directory: the next name, or 0 and a restart |
| Kernel.Kernel.GetArgs | chapOS/student-distrib/system_call.c:561-579 | Stores the running process's argument and its terminator at the caller's buffer unless the size, as an unsigned word, is smaller than the argument |
| Machine.GetArgsStaysInside | chapOS/student-distrib/system_call.c:571-576 | For every 32-bit size: getargs stays inside the caller's buffer if and only if the size is not negative and not exactly the length of the argument |
| Machine.JustFittingArgument | chapOS/student-distrib/system_call.c:571-576 | A buffer of exactly the argument's length gets one byte more than it has |
| Kernel.Kernel.UserStore | chapOS/student-distrib/paging.c:47-130 | A store of the program reaches memory exactly where its page is present for users |
| Kernel.Kernel.Vidmap | chapOS/student-distrib/system_call.c:585-592 | Maps the video page and stores 0x08400000 where the caller asked, or returns -1 when that is outside its image |
| Kernel.Kernel.CopyPage | chapOS/student-distrib/keyboard.c:149-151 | Copying 4096 bytes between the screen and the mapped terminal page through the page tables copies just these bytes |
| Kernel.Kernel.CopyTerminal | chapOS/student-distrib/keyboard.c:137-186 | The memory effect of terminal_save and terminal_restore: the terminal's own page is mapped and copied, or -1 |
| Kernel.Kernel.constructor | chapOS/student-distrib/system_call.c:10-26 | From zeroed PCBs and freshly initialised tables the kernel is valid with no process |
| Kernel.Kernel.Boot | chapOS/student-distrib/keyboard.c:125-127 | The first execute brings up one process exactly when the file system has an executable shell |
| Kernel.Kernel.Handle | chapOS/student-distrib/system_call.c:60-592 | One event keeps the kernel valid and changes its abstract state as the machine says |
| Kernel.Kernel.Serve | chapOS/student-distrib/system_call.c:60-592 | Over every run of harmless events the kernel stays valid (live ids 0..k-1, PCBs in memory, esp0, image mapping and page tables agree) and its state is that of the abstract machine |
| Calls.CommandArgumentIsSeen | chapOS/student-distrib/system_call.c:154-374 | A program that was started by a command line, and has run any harmless children since, finds in its buffer the second word of that line and one NUL, for every size from its length on |
| Calls.ArgumentIsDelivered | chapOS/student-distrib/system_call.c:561-579 | For every buffer but NULL and every 32-bit size, as unsigned not below the argument's length, getargs returns 0 and delivers exactly the running process's argument and one NUL; otherwise -1 and nothing |
| Calls.ArgumentIsSeen | chapOS/student-distrib/system_call.c:561-579 | With a buffer in its 4MB the program finds both there |
| Calls.CloseCloses | chapOS/student-distrib/system_call.c:534-558 | After a close, a descriptor from 2 to 7 is closed, and every other descriptor, process, page and byte is as before |
| Calls.CloseElsewhere | chapOS/student-distrib/system_call.c:534-558 | Closing the terminal, a closed descriptor or any other number changes nothing |
| Calls.ClosedIsReused | chapOS/student-distrib/system_call.c:413-428 | The next open of a name that exists returns the closed descriptor or a lower one |
| Calls.OpenOpens | chapOS/student-distrib/system_call.c:383-475 | A successful open takes a closed descriptor from 2 to 7 for the first entry with the name: type 2 gives a file with the inode of that entry at position 0, type 1 the directory at its start, any other the clock; nothing else changes |
| Calls.OpenFailsExactly | chapOS/student-distrib/system_call.c:383-428 | For names up to 32 bytes, open fails if and only if the name is empty, no entry has it, or descriptors 2 to 7 are all open |
| Calls.FailedOpen | chapOS/student-distrib/system_call.c:383-475 | A failed open changes nothing |
| Calls.NamedFileIsRead | chapOS/student-distrib/file_sys_module.c:235-252 | Opening a file by name and reading it in any sizes into the program's memory: the reads deliver the bytes of the inode of the first entry with that name, from the first byte on and in order, and at most one byte more |
| Calls.FileReads | chapOS/student-distrib/file_sys_module.c:235-252 | Over every series of reads of an open file the other descriptors stay, and the deliveries and the position are those of the file |
| Calls.NamedDirectoryIsRead | chapOS/student-distrib/file_sys_module.c:297-322 | Opening a directory by name and reading it: read number i delivers the 32-byte name of entry i; behind the last one 0 is returned |
| Calls.DirectoryReads | chapOS/student-distrib/file_sys_module.c:297-322 | After that 0 the next read starts again with the first name |
| Calls.NamedClockIsRead | chapOS/student-distrib/system_call.c:430-471 | Reads of an entry of any other type return 0 |
| Calls.ReadMoves | chapOS/student-distrib/system_call.c:484-500 | One read of an open descriptor: its bytes are found in the buffer, only its own position moves, and no other process changes |
| Calls.ReadsAreHarmless | chapOS/student-distrib/system_call.c:484-500 | Reads into the program's own memory are harmless |
| Calls.ReadRunsOut | chapOS/student-distrib/system_call.c:484-500 | A read whose bytes run over the end of the program delivers what fits and moves no descriptor, unless the screen is mapped there |
| Calls.BadRead | chapOS/student-distrib/system_call.c:484-500 | A read without a buffer, or of a number that is neither 0 nor an open descriptor, returns -1 and changes nothing |
| Calls.BufferIsFilled | chapOS/student-distrib/system_call.c:484-500 | What the kernel stores into a buffer in the program's 4MB is found there by the program, byte by byte, and no other byte of memory changes |
| Calls.BufferRunsOut | chapOS/student-distrib/system_call.c:484-500 | A buffer that runs over the end of the program is filled up to there |
| Calls.ProgramStarts | chapOS/student-distrib/system_call.c:154-374 | Execute of a command whose first word names a file marked as executable, with fewer than six processes: one process more, with the second word as its argument and the whole file at 0x08048000, and no other byte changed |
| Calls.NothingStarts | chapOS/student-distrib/system_call.c:232-268 | Execute changes nothing when no entry has the name, the file does not start with 7F 45 4C 46, or six processes run |
| Calls.ShellStarts | chapOS/student-distrib/system_call.c:103-114 | Halting the last process starts the program named shell with the frame of the halt, no argument, no open descriptor from 2 on and its whole file in memory |
| Calls.StatusArrives | chapOS/student-distrib/system_call.c:120-126 | The parent gets 256 for a status of 1 and every other status byte as it is |
| Calls.ScreenIsMapped | chapOS/student-distrib/system_call.c:585-592 | After vidmap the program finds the bytes 00 00 40 08 where it asked and the screen from 0x08400000 on; nothing else changes |
| Calls.VidmapRefused | chapOS/student-distrib/system_call.c:585-592 | A pointer below 0x08000000 or from 0x08400000 on is refused without a change |
| Calls.TerminalIsCopied | chapOS/student-distrib/keyboard.c:137-186 | Saving a terminal copies the 4096 bytes at 0xB8000 to 0x01C00000 + 4096 t, restoring copies them back; the program meets that page at 0x08401000 and no other byte or mapping changes |
| Calls.StoreIsSeen | chapOS/student-distrib/paging.c:122-130 | A store into the program's 4MB is seen there and changes no other byte |
| Calls.StoreElsewhereFaults | chapOS/student-distrib/paging.c:47-130 | A store below 0x08000000 or from 0x08402000 on changes nothing |
| Calls.TypedLineIsRead | chapOS/student-distrib/keyboard.c:738-753 | A line typed and edited on the keyboard and ended by Enter is what read(0) stores in the program's buffer: the text or as much of it as was asked for, with a NUL behind all of it if there is room and the line is shorter than 128 |
| CommandLine.Parse | chapOS/student-distrib/system_call.c:163-230 | For every command the parsing loop ends, because position or phase advances, and yields the first two tokens exactly when they fit the two buffers |
| CommandLine.NameStep | chapOS/student-distrib/system_call.c:191-207 | An iteration before or in the name consumes a character or advances the phase and keeps the buffers in step with the tokens, unless the name does not fit |
| CommandLine.ArgStep | chapOS/student-distrib/system_call.c:208-227 | The same before and in the argument, unless that does not fit; a space behind it ends the loop with both tokens in the buffers |
| CommandLine.TokensAreWords | chapOS/student-distrib/system_call.c:188-230 | However name and argument are spaced and whatever follows, the tokens are these two words |
| CommandLine.OneWord | chapOS/student-distrib/system_call.c:188-230 | A command of one word, however spaced, has that word as its name and no argument |
| CommandLine.WordsThatFit | chapOS/student-distrib/system_call.c:191-227 | The words fit exactly up to 9 and 99 characters |
| Paging.WalkIsMeaning | chapOS/student-distrib/paging.c:47-130 | Walking the two-level tables gives every 32-bit address its intended meaning: image to the process's own frame, kernel and video pages to themselves, vidmap and terminal page to theirs, everything else a fault |
| Paging.AliasesExactly | chapOS/student-distrib/paging.c:22-40 | Two addresses meet in one byte exactly for the video page and its vidmap alias, or when process 5's image holds the mapped terminal page |
| Paging.ShiftIsDivision | chapOS/student-distrib/paging.c:22-40 | On 32-bit words the shifts of the table indices are divisions |
| Paging.MaskIsRemainder | chapOS/student-distrib/paging.c:22-40 | On 32-bit words the masks are remainders |
| Paging.OrIsSum | chapOS/student-distrib/paging.c:22-40 | Oring flags into a page-aligned base adds them |
| Paging.TableWalk | chapOS/student-distrib/paging.c:47-86 | A walk through a page table meets the entry's frame, for users when both levels allow it |
| Paging.Mmu.InitializePaging | chapOS/student-distrib/paging.c:47-86 | The initial tables map the kernel and the video page and nothing for users |
| Paging.Mmu.NewUserVidPage | chapOS/student-distrib/paging.c:22-29 | For every address: its page becomes the video page, by two entries; for the address of vidmap image and terminal page stay as they are |
| Paging.Mmu.MapTermVid | chapOS/student-distrib/paging.c:31-40 | Maps one terminal's page in the shared slot, or returns -1, and leaves image and vidmap page as they are |
| Paging.Mmu.MapUserImgPage | chapOS/student-distrib/paging.c:122-130 | Maps the frame of an image from 0 to 6, or returns -1, and leaves vidmap and terminal page as they are |
| Paging.Mmu.Translate | chapOS/student-distrib/paging.c:47-130 | An access through the current tables meets what the address means |
| FileSystem.ReadData | chapOS/student-distrib/file_sys_module.c:138-191 | Walking the scattered blocks delivers consecutive bytes of the file and leaves the rest of the buffer; the count includes the one byte behind the end |
| FileSystem.DeliversFile | chapOS/student-distrib/file_sys_module.c:165-190 | The delivered bytes are the file's own, followed by one byte that is not, which is missing exactly when no more was asked for than was left |
| FileSystem.WholeFileIsExact | chapOS/student-distrib/system_call.c:275-278 | Reading a file with its own length delivers exactly the file |
| FileSystem.BlockIsPart | chapOS/student-distrib/file_sys_module.c:138-191 | Byte 4096 k + i of a file is byte i of its k-th data block |
| FileSystem.ReadsAreConsecutive | chapOS/student-distrib/file_sys_module.c:235-252 | However a file is cut into reads, their concatenation is one prefix of the bytes in memory |
| FileSystem.WhereReadsEnd | chapOS/student-distrib/file_sys_module.c:235-252 | Where any series of reads ends |
| FileSystem.ReadsAreExact | chapOS/student-distrib/file_sys_module.c:235-252 | A series of reads delivers part of the file and nothing else if and only if it stays inside it or stops at its end |
| FileSystem.OpenFile.FileRead | chapOS/student-distrib/file_sys_module.c:235-252 | One read from the current position, which advances modulo 2^32; -1 for a bad inode moves it back by one |
| FileSystem.OpenFile.FileReads | chapOS/student-distrib/file_sys_module.c:235-252 | A series of reads delivers the concatenation of its slices |
| FileSystem.NamesEqual | chapOS/student-distrib/lib.c:526-544 | strncmp over 32 bytes is 0 exactly when the name, cut to 32 bytes, is the entry's name, with or without a terminator |
| FileSystem.Lookup | chapOS/student-distrib/file_sys_module.c:73-97 | The entry that is found is the first with the name |
| FileSystem.ReadDentryByName | chapOS/student-distrib/file_sys_module.c:73-97 | Returns kind and inode of the first entry with the name, or -1 exactly when there is none |
| FileSystem.ReadDentryByIndex | chapOS/student-distrib/file_sys_module.c:106-127 | Returns the entry at an index below 63 with a non-empty name, or -1 |
| FileSystem.Padded | chapOS/student-distrib/lib.c:576-591 | strncpy into 32 bytes holds the name again, also when it uses all of them |
| FileSystem.OpenDirectory.DirRead | chapOS/student-distrib/file_sys_module.c:297-322 | The next name and a step, or 0 and a restart |
| FileSystem.OpenDirectory.ListAll | chapOS/student-distrib/file_sys_module.c:297-322 | Reading until 0 lists every entry before the first empty one, in order, and leaves the position at the start |
| FileSystem.ListedNameIsFound | chapOS/student-distrib/file_sys_module.c:73-127 | Looking up a listed name finds its own entry if and only if no earlier entry has that name |
| Grep.DoOneFile | chapOS/syscalls/ece391grep.c:9-66 | For every file, every byte that may follow it in memory and every content of the uninitialised buffer: prints, once each and in order, the lines that match among those the buffer holds for the delivered bytes; -1 when the file cannot be opened or read |
| Grep.SeenExactly | chapOS/syscalls/ece391grep.c:20-60 | For every text: the lines are searched as the 1024-byte window sees them if and only if each unfinished line arrives whole in the next window and no newline that happens to stand behind a window ends one |
| Grep.PrintedIsExact | chapOS/syscalls/ece391grep.c:20-60 | For a text that arrives whole: what is printed is its matching lines if and only if no line of more than 1024 bytes matches, and the byte behind the file is not read, or is NUL or a newline, or gives the last piece no match |
| Grep.WholeFileIsPrinted | chapOS/syscalls/ece391grep.c:20-60 | For every file, also with NULs: when it arrives whole, its last read stops at its end and no line of more than 1024 bytes matches, its matching lines are printed |
| Grep.NulLosesMatch | chapOS/syscalls/ece391grep.c:33-38 | A file whose only match lies in a line that begins with a NUL and crosses the first window: the promised record is not printed |
| Grep.DeliveredIsExact | chapOS/syscalls/ece391grep.c:20-60 | For every byte behind a text: what the window finds in the delivered bytes is its matching lines if and only if no line of more than 1024 bytes matches, and that byte is not read, or is NUL or a newline, or gives the last piece of the last line no match |
| Grep.WindowIsExact | chapOS/syscalls/ece391grep.c:20-60 | What the window finds in the bytes of the file is exactly its matching lines if and only if no line of more than 1024 bytes contains the pattern |
| Grep.LongLineIsSplit | chapOS/syscalls/ece391grep.c:20-60 | A file of one line of 1025 letters is reported in two records |
| Grep.SlackShows | chapOS/syscalls/ece391grep.c:20-60 | A byte behind the text changes the output if and only if it is neither NUL nor a newline and the last piece of the text together with it matches |
| Grep.SlackIsPrinted | chapOS/syscalls/ece391grep.c:20-60 | A file of the one letter a that is followed by a b in memory is reported for the pattern b |
| Grep.NoLongMatchNoDifference | chapOS/syscalls/ece391grep.c:20-60 | Short lines, and long ones without a match, are found as promised |
| Grep.SearchFile | chapOS/syscalls/ece391grep.c:20-60 | The read loop ends and has printed all that was to be found in what was left of the file |
| Grep.ReadStep | chapOS/syscalls/ece391grep.c:22-27 | A read takes its bytes from the front of what will still be delivered, which is settled by the bytes in the buffer and the rest of the file |
| Grep.PassStep | chapOS/syscalls/ece391grep.c:28-57 | What is still to be delivered is the same after a pass over a full window, although the carried bytes may have changed |
| Grep.FillBuffer | chapOS/syscalls/ece391grep.c:21-27 | Reading behind the carried part keeps the text that is still to be searched |
| Grep.SearchBuffer | chapOS/syscalls/ece391grep.c:28-57 | A pass over any window searches its complete lines once each and in order, leaves no newline in it, and keeps of the unfinished line what is carried, or searches it when nothing was read, nothing precedes it or a stray newline ends it |
| Grep.SearchOrCarry | chapOS/syscalls/ece391grep.c:29-56 | One iteration searches the next line or carries it, and brings the pass forward or to its end |
| Grep.CarryPartial | chapOS/syscalls/ece391grep.c:33-38 | For every unfinished line: its bytes up to and with its first NUL are at the front of the buffer, and what follows there is as before; the line arrives whole if and only if that is its own rest |
| Grep.TextArrivesWhole | chapOS/syscalls/ece391grep.c:33-38 | A file without a NUL arrives whole, whatever byte follows it, unless a newline stands at the end of the uninitialised buffer |
| Grep.PiecesConcat | chapOS/syscalls/ece391grep.c:29-56 | A newline ends a piece: a text can be cut behind any of its newlines |
| Grep.PiecesMore | chapOS/syscalls/ece391grep.c:29-56 | 1024 bytes without a newline are one piece, and so is a shorter line with its newline or at the end |
| Grep.SeenWindow | chapOS/syscalls/ece391grep.c:20-60 | One window, in full: without a newline it is searched as one line; else its complete lines are searched, and the unfinished one precedes the rest of the text as it was carried, or is searched at once when a stray newline follows |
| Grep.CarriedByte | chapOS/syscalls/ece391grep.c:33-38 | Each byte of a carried line: its own up to and with the first NUL of the line, behind that what stood at the same place of the old window, with newlines made NULs |
| Grep.LinesJoin | chapOS/syscalls/ece391grep.c:29-56 | The lines of a text have no newline, and joined by newlines they are the text |
| Grep.JoinedLines | chapOS/syscalls/ece391grep.c:29-56 | Every list of lines without a newline is the list of lines of its joined text |
| Grep.ContainsExactly | chapOS/syscalls/ece391support.c:35-46 | A line contains a pattern if and only if it is something, the pattern and something; it contains the empty pattern if and only if it has a NUL |
| Grep.MatchesMore | chapOS/syscalls/ece391grep.c:40-52 | The matches of a text are its first line, if it contains the pattern, and those of the rest |
| Grep.RenderedLines | chapOS/syscalls/ece391grep.c:45-48 | For a name and records without newlines: the terminal shows exactly one line for each record, the name, a colon and the record, and stands at the start of the next line |
| Grep.TerminalShowsRecords | chapOS/syscalls/ece391grep.c:45-48 | So it is for every search of a file, every byte behind it and every content of the buffer: one line for each record that is printed |
| Grep.SearchNextLine | chapOS/syscalls/ece391grep.c:40-52 | One line is searched, and its newline or the byte behind the window becomes a NUL |
| Grep.SearchLine | chapOS/syscalls/ece391grep.c:40-51 | A line is printed once exactly when it contains the pattern |
| Grep.ScanLine | chapOS/syscalls/ece391grep.c:30-32 | Finds the next newline or the end of the bytes |
| Grep.LineToPrint | chapOS/syscalls/ece391support.c:19-22 | What is written is the line up to its first NUL |
| Grep.Strncmp | chapOS/syscalls/ece391support.c:35-46 | Is 0 exactly when the pattern stands at that place |
| Grep.Strcpy | chapOS/syscalls/ece391support.c:14-17 | Moves the string and its terminator to the front, also when the two overlap |
| Grep.Strlen | chapOS/syscalls/ece391support.c:6-12 | Counts the bytes before the first NUL |
| Grep.Descriptor.Read | chapOS/student-distrib/file_sys_module.c:138-191 | An open file as the program sees it: the next bytes of its stream |
| Search.SystemCallIsDescriptor | chapOS/student-distrib/system_call.c:484-500 | The read system call on an open file takes the bytes that the program's descriptor takes, stores them in its buffer and advances by their number, unless the buffer cannot be written |
| Search.GrepFile | chapOS/syscalls/ece391grep.c:9-66 | Searching a named file of the kernel's file system prints what is found in it, for all its bytes, every byte behind it and every content of the buffer |
| Search.FoundIsPromised | chapOS/syscalls/ece391grep.c:9-66 | For a file without a NUL, and a buffer that does not end in a newline, that is its matching lines if and only if no line longer than the window matches and the byte behind the file is not read or does not show |
| Search.GrepAll | chapOS/syscalls/ece391grep.c:68-97 | The main loop visits every listed entry in order, skips names with a dot, and prints the report over all of them, each for the file that its name opens |
| Search.ReportIsPromised | chapOS/syscalls/ece391grep.c:68-97 | For a directory of such files that report is, file by file, the matching lines if and only if this holds of each file that is opened |
| Search.ReportHasVisible | chapOS/syscalls/ece391grep.c:84-95 | The report has one part for each listed name that does not start with a dot, in the order of the directory |
| Search.PartIsSearched | chapOS/syscalls/ece391grep.c:84-95 | Each part is what a search prints for the bytes of the inode that its name opens, and nothing for the clock |
| Search.ReportIsShown | chapOS/syscalls/ece391grep.c:45-48 | The lines on the terminal are, part by part and record by record, the name, a colon and the record, and no others |
| Screen.PutAllShowsLayout | chapOS/student-distrib/lib.c:181-239 | From a cleared screen, after any text, video memory and cursor are the last 25 rows of the unbounded 80-column layout of that text |
| Screen.PutRefinesPage | chapOS/student-distrib/lib.c:181-239 | putc, with its wrap and its scroll, is one more character on the unbounded page seen through a moving window |
| Screen.LayoutMore | chapOS/student-distrib/lib.c:181-214 | Printing one more character extends the layout of a text as one character extends a page |
| Screen.LayoutRows | chapOS/student-distrib/lib.c:181-214 | A text without a break fills rows of 80 characters; the last row may be empty |
| Screen.LayoutBreak | chapOS/student-distrib/lib.c:187-193 | A newline or a carriage return starts a row: what follows is laid out on its own |
| Screen.PrintedCell | chapOS/student-distrib/lib.c:181-239 | The character in each of the 2000 cells after any text was printed on a cleared screen |
| Screen.ShownCell | chapOS/student-distrib/lib.c:195-203 | A cell has the character of the page, or a blank, both in colour 2 |
| Screen.RestIsSpared | chapOS/student-distrib/lib.c:17-25 | Printing, backspace and clear never change bytes 4000 to 4095 of the video page |
| Screen.BackRefinesPage | chapOS/student-distrib/keyboard.c:512-548 | A backspace takes the last character off the page if and only if the cursor is not at the start of row 0 or 1, or in row 1 that character is a blank |
| Screen.BackBlanks | chapOS/student-distrib/keyboard.c:520-547 | Where a backspace leaves the cursor, and the one cell that it blanks; all other bytes stay |
| Screen.TypeThenErase | chapOS/student-distrib/keyboard.c:512-548 | Typing and erasing a character is the identity on the page, across wrap and scroll, exactly outside the end of row 0 (blanks aside); the cursor always comes back |
| Screen.BlankedIsCleared | chapOS/student-distrib/lib.c:17-25 | clear with the cursor at the origin shows the blank page |
| Screen.Vga.Clear | chapOS/student-distrib/lib.c:17-25 | Blanks all 2000 cells and nothing else |
| Screen.Vga.CopyRowUp | chapOS/student-distrib/lib.c:222-239 | Moves one row of characters up |
| Screen.Vga.MoveScreenUp | chapOS/student-distrib/lib.c:222-239 | Shifts all rows up by one and blanks the last |
| Screen.Vga.Putc | chapOS/student-distrib/lib.c:181-214 | Does to video memory and cursor what the screen function says |
| Screen.Vga.EraseBack | chapOS/student-distrib/keyboard.c:520-547 | Does to video memory and cursor what the backspace function says |
| Terminal.Console.Serve | chapOS/student-distrib/keyboard.c:137-289 | Over every run of keys, output and switches the shared video memory, cursor, key index and page slot behave like three terminals, and a key buffer runs over if and only if an Enter is pressed with 128 pending keys |
| Terminal.TerminalsAreIndependent | chapOS/student-distrib/keyboard.c:137-289 | Each terminal is what the events sent to it, and the NULs that run over into its key buffer, make of it |
| Terminal.StruckExactly | chapOS/student-distrib/keyboard.c:461-469 | Such a NUL reaches a terminal exactly when Enter is pressed with 128 pending keys on the terminal whose buffer lies before its own |
| Terminal.OthersKeepExactly | chapOS/student-distrib/keyboard.c:461-469 | One input leaves a terminal without the keyboard as it is if and only if it does not run over into it, or meets a NUL there |
| Terminal.OverrunTakesLine | chapOS/student-distrib/keyboard.c:461-469 | 128 keys and Enter on one terminal make the pending line of the next one empty |
| Terminal.SaveRestoreSwitches | chapOS/student-distrib/keyboard.c:196-261 | Saving the terminal on the hardware and restoring another is one switch of the three terminals |
| Terminal.LeaveAndReturn | chapOS/student-distrib/keyboard.c:236-261 | Leaving a terminal and coming back leaves its screen, cursor and pending line as they were if and only if no Enter ran over into its key buffer meanwhile, or its first byte is NUL |
| Terminal.BufferHoldsText | chapOS/student-distrib/keyboard.c:512-585 | After any keys and backspaces the key buffer holds the text that pushes and pops leave, whatever it held before |
| Terminal.ReadDeliversLine | chapOS/student-distrib/keyboard.c:461-753 | After Enter a read stores the first min(nbytes, length) bytes of that text and nothing else but one NUL behind all of it if there is room and fewer than 128 keys were pending; it returns their number, but 0 when 128 keys were pending and at least 128 bytes asked for |
| Terminal.EditedAgain | chapOS/student-distrib/keyboard.c:512-585 | Typing two texts, taking the second back and typing a third leaves the first and the third |
| Terminal.ScreenShowsText | chapOS/student-distrib/keyboard.c:512-585 | While a line is edited the screen shows, at every moment, the page as before with exactly the edited text behind it, if and only if no backspace meets the case in which it leaves its character |
| Terminal.CursorFollowsKeys | chapOS/student-distrib/keyboard.c:512-585 | From any row the cursor is as many cells behind its start as keys are pending, counting scrolled rows |
| Terminal.BelowTopRowErasesInSight | chapOS/student-distrib/keyboard.c:520-547 | A line that starts below row 0 never meets the case in which a backspace leaves its character |
| Terminal.TypeThenEraseAll | chapOS/student-distrib/keyboard.c:512-585 | From any row and behind any pending keys, k characters and k backspaces bring back cursor and count, and the page if and only if the cursor starts below row 0, the text ends in row 0, or its last character there is a blank |
| Terminal.Handle | chapOS/student-distrib/keyboard.c:461-585 | Every event keeps cursor, buffer and index in range |
| Terminal.SwitchSelects | chapOS/student-distrib/keyboard.c:236-289 | A switch selects terminal 0, 1 or 2 and changes no terminal; other numbers are ignored |
| Terminal.OutputIsPrinted | chapOS/student-distrib/keyboard.c:763-783 | What a program writes is printed on the screen and leaves the pending line alone |
| Terminal.OutputIsOnCurrent | chapOS/student-distrib/keyboard.c:763-783 | It is printed on the current terminal and on no other |
| Terminal.ClearedScreenShows | chapOS/student-distrib/keyboard.c:587-598 | Ctrl-L gives a blank screen with nothing pending, and what is written next is laid out from its upper left corner on |
| Terminal.EnterStartsRow | chapOS/student-distrib/keyboard.c:461-469 | Enter starts a new row of the page, scrolling if need be, and leaves nothing pending |
| Terminal.DispatchedIsStep | chapOS/student-distrib/keyboard.c:330-413 | What the handlers do to hardware and records is one step of the three terminals |
| Terminal.Console.InitTerminals | chapOS/student-distrib/keyboard.c:97-124 | Three coloured pages with the cursor at the origin and nothing pending; terminal 0 on the screen |
| Terminal.Console.TerminalRestore | chapOS/student-distrib/keyboard.c:137-157 | Screen, cursor and key index are those saved for the terminal, or -1 |
| Terminal.Console.TerminalSave | chapOS/student-distrib/keyboard.c:168-186 | For every terminal: its page and record hold screen, cursor and key index, or nothing changes and -1 |
| Terminal.Console.TerminalChange | chapOS/student-distrib/keyboard.c:236-261 | Switches the current terminal and changes none |
| Terminal.Console.TerminalLaunch | chapOS/student-distrib/keyboard.c:196-216 | The same for a terminal used for the first time |
| Terminal.Console.TerminalLoS | chapOS/student-distrib/keyboard.c:269-289 | Launch or change, as the case may be, is one switch |
| Terminal.Console.KeyboardRead | chapOS/student-distrib/keyboard.c:738-753 | Copies the bytes before the first NUL, at most nbytes, and changes no terminal; a full buffer without NUL reads as 0 |
| Terminal.Console.PressOtherKey | chapOS/student-distrib/keyboard.c:572-585 | Appends and prints the key while fewer than 128 are pending |
| Terminal.Console.PressBackspace | chapOS/student-distrib/keyboard.c:512-548 | Takes back the last pending key and its character |
| Terminal.Console.PressEnter | chapOS/student-distrib/keyboard.c:461-469 | Terminates the line, clears the count and breaks the line on the screen; behind a full buffer it stores into the buffer that lies there |
| Terminal.Console.PressClear | chapOS/student-distrib/keyboard.c:587-598 | Blanks the screen and forgets the pending keys |
| Terminal.Console.Dispatch | chapOS/student-distrib/keyboard.c:330-413 | Every input is one step of the three terminals, and a buffer runs over exactly at an Enter with 128 pending keys |
| Blink.BlinksAsDocumented | chapOS/fish/blink.S:49-99 | A fresh item is on after n ticks exactly when n mod (on + off) < on, for every n, if and only if both lengths are from 1 to 32768 |
| Blink.Phase | chapOS/fish/blink.S:60-91 | For every pair of 16-bit lengths: status and remaining countdown after n ticks |
| Blink.AddedItemBlinks | chapOS/fish/blink.S:49-180 | Over every run that spares its location, an added item is there once and its cell shows the character of its phase |
| Blink.DisplayOverRun | chapOS/fish/blink.S:43-99 | Over every such run an item is ticked as often as the clock and its cell shows the character of its status |
| Blink.ItemsOverRun | chapOS/fish/blink.S:49-296 | Over every run that spares a location, all items there are ticked as often as the clock and none comes or goes |
| Blink.SyncedStayTogether | chapOS/fish/blink.S:240-296 | After a sync the newest items at both locations have the same status and countdown for the rest of any run that spares them, and older ones tick on undisturbed |
| Blink.SyncDrawsOff | chapOS/fish/blink.S:275-286 | A sync changes the newest item at the target and no other, and draws its off character, which is right exactly when the copied status is off or both characters are the same |
| Blink.NewestFirst | chapOS/fish/blink.S:105-237 | Add is cons, find returns the newest item at a location, remove takes just that one |
| Blink.AddDrawsOn | chapOS/fish/blink.S:105-180 | An accepted add draws the on character and puts the fresh item in front; a location of 2000 and more or a full pool changes nothing |
| Blink.OtherBytesStay | chapOS/fish/blink.S:49-296 | Add, remove, sync and tick leave every byte of video memory as it is, but the character of an added or synced item and those of items that change at a tick |
| Blink.TickedCellKept | chapOS/fish/blink.S:49-99 | A tick leaves a cell alone when no item there changes |
| Blink.TickedCellOldest | chapOS/fish/blink.S:49-99 | Otherwise the cell shows the oldest item there that changes |
| Blink.Run | chapOS/fish/blink.S:49-296 | Over every run of add, remove, sync and tick the locations stay in 1..1999 |
| Blink.AddKeepsListExactly | chapOS/fish/fish.c:161-171 | An add keeps the list acyclic and equal to the occupied slots if and only if its location is not 0 |
| Blink.AddAtZeroLoops | chapOS/fish/blink.S:131-162 | After an add at location 0 the next one reuses its slot, which then points to itself |
| Blink.FullWhenListed | chapOS/fish/fish.c:161-171 | The pool is full exactly when the list has 2000 nodes |
| Blink.ChainAdd | chapOS/fish/blink.S:159-162 | A free slot becomes the first node; the list stays duplicate-free and equal to the occupied slots |
| Blink.ChainRemove | chapOS/fish/blink.S:206-223 | Unlinking takes one node out and leaves the others in order |
| Blink.ChainUpdate | chapOS/fish/blink.S:267-275 | Changing an item without its location leaves the list alone |
| Blink.FirstFree | chapOS/fish/fish.c:161-171 | The slot found has location 0 and no earlier one has |
| Blink.Pool.Malloc | chapOS/fish/fish.c:161-171 | Returns the first free slot or none |
| Blink.Pool.Free | chapOS/fish/fish.c:173-176 | Clears one slot |
| Blink.Pool.FindHelper | chapOS/fish/blink.S:351-379 | The loop ends and finds the newest node at the location, or none |
| Blink.Pool.Add | chapOS/fish/blink.S:105-180 | Adds a fresh item at the front and draws it; -1 without a change for a location of 2000 and more or a full pool; for location 0 no list describes the result |
| Blink.Pool.Remove | chapOS/fish/blink.S:187-233 | Removes the newest item at the location, or returns -1 |
| Blink.Pool.FindPrevious | chapOS/fish/blink.S:206-212 | The loop ends at the predecessor of the node |
| Blink.Pool.Unlink | chapOS/fish/blink.S:206-223 | Takes the node out of the list and frees its slot |
| Blink.Pool.Sync | chapOS/fish/blink.S:240-296 | Copies lengths, countdown and status from source to target, or returns -1 |
| Blink.Pool.FindItem | chapOS/fish/blink.S:302-345 | Returns the newest item at the location, or -1 |
| Blink.Pool.RtcTasklet | chapOS/fish/blink.S:49-99 | The pass ends and ticks and draws every item once, from the newest on |
| Blink.Pool.TickNode | chapOS/fish/blink.S:60-91 | One item: count down, and at its end change status, draw and reload |
| Blink.Pool.FlipNode | chapOS/fish/blink.S:66-91 | The end of a countdown: the other character is drawn, its length starts and the status changes |
| Blink.Pool.constructor | chapOS/fish/blink.S:18-19 | The empty list over a cleared pool |
| Memory.Memset | chapOS/student-distrib/lib.c:336-373 | The aligned dword version stores the low byte of c in exactly n places, for every address and length |
| Memory.Replicated | chapOS/student-distrib/lib.c:336-373 | The four shifted copies of a byte make a word with that byte in every place |
| Memory.RegisterBytes | chapOS/student-distrib/lib.c:336-373 | Four bytes shifted into a word are its bytes, lowest first |
| Memory.RepStosl | chapOS/student-distrib/lib.c:336-373 | The repeated dword store |
| Memory.Memcpy | chapOS/student-distrib/lib.c:437-477 | Delivers the original bytes and touches nothing else whenever the areas do not overlap or the destination is below |
| Memory.RepMovsl | chapOS/student-distrib/lib.c:437-477 | The repeated dword copy is the byte-wise one |
| Memory.Memmove | chapOS/student-distrib/lib.c:489-510 | Delivers the original bytes for every overlap |
| Numbers.DigitsReadBack | chapOS/student-distrib/lib.c:250-308 | Reading back the string of any number in any radix from 2 to 36 yields the number; all digits are valid and only "0" starts with a zero |
| Numbers.DigitsOne | chapOS/student-distrib/lib.c:250-308 | A digit is one of 0 to 9 and A to Z; the string of a longer number is that of its quotient by the radix and its last digit |
| Numbers.Itoa | chapOS/student-distrib/lib.c:250-283 | For every 32-bit value the buffer holds that string, at most 32 digits, and its terminator |
| Numbers.StoreLowDigits | chapOS/student-distrib/lib.c:271-279 | The division loop stores the digits from the lowest on |
| Numbers.Strrev | chapOS/student-distrib/lib.c:292-308 | Reverses the string in place and nothing else |
| Numbers.PrintHexAligned | chapOS/student-distrib/lib.c:86-96 | Prints the digits behind as many zeros as make eight |
| Numbers.AlignedHexReadsBack | chapOS/student-distrib/lib.c:86-96 | What is printed has exactly eight hexadecimal digits of the same value |

## Left out

- Port I/O and device set-up (i8259.c, rtc.c, pit, the cursor registers), idt.c, x86_desc, boot.S, handlers.S and kernel.c: hardware plumbing and table filling.
- scheduler.c: its code is commented out.
- Interrupt timing: every handler and system call is one step; the busy waits of keyboard_read and rtc_read end when their event has occurred.
- Scancode tables, Shift, Ctrl and Alt: keys arrive as characters; Ctrl-L and the terminal switches are events of their own.
- The shell that terminal_launch starts: switching is in Terminal, the execute in Kernel.
- The write system call, keyboard_write and printf beyond `%#x`; keyboard_write is a series of output events.
- ece391emulate.c, ece391syserr.c and the straight-line user programs; grep's messages when a directory or file cannot be read.
- f_names, which nothing reads, and NULL arguments other than the buffers of read and getargs.
- Kernel.Kernel.Execute: where the words of a command do not fit, the model stops; what the original then overwrites on its stack is not followed. Nor is the entry point of a program. A file of fewer than four bytes leaves the rest of the buffer of its magic number uninitialised, which is modelled as zeros.
- A file system whose entries refer to missing inodes, or whose files do not fit behind the load address, is not considered by Kernel and Search.
- Kernel.Kernel.Fill: the page tables lie in the kernel's page but are not part of the modelled memory, so a delivery that hits them is taken to leave them as they are. A delivery stops at its first fault; the exception that then ends the program is a halt event of its own.
- Kernel.Kernel.Read: only for buffers outside the kernel's page; behind them the descriptor that read advances may be overwritten.
- Kernel.Kernel.GetArgs: only for buffers outside the kernel's page.
- Kernel.Kernel.Handle: only for harmless events.
- Kernel.Kernel.Serve: only harmless runs are followed; after a store into the kernel's page the lemmas about that page say what changed, not what the kernel does next. Kernel stacks other than esp0 and the PCBs below them are not modelled.
- Kernel.Kernel.UserStore: a store that faults changes nothing; the exception that ends such a program is a halt event of its own.
- Kernel.Kernel.CopyPage: copies byte by byte; `Memory.Memcpy` shows that the dword version does the same.
- Paging.Walk: words are numbers; the bit-vector lemmas relate shifts, masks and ors to the arithmetic used.
- Memory.Memcpy: forward copies into an overlapping higher area are not covered; memmove is.
- Search.GrepAll: directories with a name that does not start with a dot, whose names grep would search like lines. The same holds for Search.GrepFile.
- Search.GrepFile: searches regular files and the clock.
- Grep.PrintedIsExact: for a file with a NUL it is not stated when what is printed equals the promised lines although a line did not arrive whole.
- Terminal.Console.PressEnter: which key buffer lies behind which is a parameter; a NUL that runs over behind the last one is recorded in a flag. `Machine` does not follow the key buffers.
- Blink.Pool.Add: the copy of the argument from the caller is a value; the pool is an array with indices for pointers.
