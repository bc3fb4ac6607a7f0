# The xv6 kernel's algorithms, and three programs beside it

This project models the parts of a teaching kernel whose correctness rests on an argument that no single function states:
who owns a disk block or a page frame, what a file's bytes are after a write, what an address space looks like after a
failure half way, what other processes may do between two steps of a protocol. It also models the shell's parser and the
user-level memory allocator, `grep`, and the polling booth of Assignment 4.

The source changes state in place, and so does the model: classes hold the disk, the inode cache, the frames, the heap,
the pipe and the booth, and each method's contract ties the new state to the old one. What a method computes is given by a
small specification (a byte sequence, a map, a set of frames, a grammar), and lemmas prove what the specification means.
Protocols between processes are state machines over their atomic steps; their theorems are about every run.

| files | what they model |
|---|---|
| `FsLayout`, `FsLedger`, `FsContent`, `FsFree`, `FsLog`, `FileSystem`, `OpenFiles` | bitmap, block maps, free blocks, byte-level reads and writes, truncation, the log budget, the open-file table |
| `InodeCache`, `InodeSteps`, `InodeRuns`, `InodePuts`, `InodeLeaks` | `iget`, `idup`, `ilock`, `iput`, `ialloc` as interleaved steps; which of them leak an inode |
| `Directories`, `Paths` | directories as maps, path walking as a fold |
| `VmLedger`, `VmSpace`, `VmUser`, `VirtualMemory` | frames and page tables, address spaces, user memory |
| `ExecFormat`, `ExecImage`, `ExecStack`, `Exec` | the program loader: the layout of ELF headers, its segments, its stack, and when it fails or reads through a null pointer |
| `ShellGrammar`, `ShellSyntax`, `ShellParser`, `Allocator` | the shell's parser on strings, a canonical printer, its grammar, its parser on a buffer, `malloc` and `free` |
| `Pipes`, `Locks`, `Booth` | the pipe, spin and sleep locks, interrupt nesting, the polling booth |
| `Grep` | the matcher and the line loop |
| `Basics`, `Bytes`, `Outcomes` | numbers and sets; bits, words and slices of files; how a routine ends (`Panic` is the kernel's `panic`, or a read through a null pointer) |

## What turned out false, and when it holds

- **`iput` frees an unlinked inode with its last pointer.** Not if two overlap: when two processes drop the last two
  pointers, and each reads the count before the other decrements it, neither frees the inode (`OverlappingPutsLeak`, and
  from an empty cache `SomeRunLeaks`), and nothing the kernel does later can (`LeakIsForever`). A step leaks an inode if and
  only if it is the decrement to zero by an `iput` that did not free it, of an inode with a type but no links, that no
  `ialloc` has just claimed (`LeaksExactlyWhen`). Runs in which no two `iput`s of one entry overlap from the count to the
  decrement, and none tests the entry of an unlinked inode that nobody has read, leak nothing (`OrderlyRunsLeakNothing`).
- **`iput` keeps to the blocks that its transaction reserved.** If and only if the inode's blocks lie under at most nine
  bitmap blocks (`FitsExactlyWhen`, `FreedMapsNamed`); a file of ten blocks for which it does not is `SomeInodeExceeds`.
  That alone does no harm. `log_write` halts when it finds the log full, and in an `iput` that runs alone it does so if and
  only if the bitmap blocks and the inode's block fill it, since the inode's block is written twice (`Iput`); `fileclose`
  halts in just that case (`FileClose`). With the usual log of 30 blocks 28 bitmap blocks are enough (`SomeInodeOverruns`),
  and on disks of fewer it never happens (`SmallDiskFits`).
- **`exec` fails with -1, or succeeds.** It reads through a null page-table pointer if and only if it comes to an argument
  that does not fit below the stack pointer and wraps around to an address without page table, which `uva2ka` does not test
  for (`ReadsNullExactlyWhen`). What it finds at address 0, and what follows, depends on the process that calls it. With the
  kernel's own map such an argument is `LongArgumentReadsNull`, and arguments of less than a page are safe
  (`ShortArgumentsAreSafe`).
- **Writers of a pipe wake its readers.** A killed writer does not: the early return skips the wakeup. A step breaks the
  readers' half of the protocol exactly if it is that return past a sleeping reader (`ReadersHalf`); `LostWakeup` is such a
  run, of any reader and writer.
- **The booth casts one vote for each voter.** The test for unassigned voters is made without the lock. A turn hands out
  number 0 if and only if a robot that passed the test fetches when none is left (`ZeroExactlyWhen`); then one vote too many
  is cast, never more (`EveryRun`, `WhenAllStopped`). For any number of voters, two robots and one slot there is such a run
  (`OneVoteTooMany`), also in the booth that `main` starts (`MainCanGoWrong`); with the test under the lock there is none
  (`AtomicTestIsEnough`).
- **`grep` writes the matching lines.** For every pattern exactly if each line ends within 1023 characters, its newline
  included, and holds no NUL (`SelectsExactlyWhen`); otherwise whole buffers are dropped, as in `LongLineIsLost`.
- **`malloc` returns as much as was asked for.** Exactly up to 2^32 - 8 bytes, above which rounding up wraps
  (`UnitsHoldRequest`); and `sbrk` is asked to shrink from 2 Gbytes on (`AskIsPositive`), unless some free block fits
  (`Malloc`).
- **What `dirlink` stores is what `dirlookup` finds.** Exactly for inode numbers from 1 to 2^16 - 1, since the number is cut
  to 16 bits (`LinkedIsFoundExactlyWhen`).

## Model

| member | source | states |
|---|---|---|
| FsFree.BitmapIsOwnership | Assignment5/xv6-public/fs.c:57-96 | the bitmap marks exactly the metadata blocks and the blocks that some inode names directly, as its indirect block, or in it; no block is named twice, by one inode or by two |
| FileSystems.FileSystem.Balloc | Assignment5/xv6-public/fs.c:57-78 | the first free block is marked and zeroed, no other bit or block changes, and it halts exactly when no block is free |
| FileSystems.FileSystem.Bfree | Assignment5/xv6-public/fs.c:82-96 | exactly the one bit is cleared; it halts exactly on a block that is free already |
| FileSystems.FileSystem.Bmap | Assignment5/xv6-public/fs.c:374-401 | the block of the given file block; an absent one is allocated, zeroed and owned by nobody else, the indirect block with it if needed, without touching any file's data; an existing one changes nothing; it halts exactly if fewer blocks are free than are missing |
| FsLedger.LedgerTakesEntry | Assignment5/xv6-public/fs.c:385-397 | entering a new block into the indirect block keeps single ownership and the bitmap's agreement with it |
| FsLedger.LedgerTakesAddr | Assignment5/xv6-public/fs.c:379-389 | the same for a direct address or the indirect block itself |
| FsContent.ExtensionKeepsBytes | Assignment5/xv6-public/fs.c:374-401 | allocation alone changes no byte of any file |
| FsContent.DenseExtends | Assignment5/xv6-public/fs.c:499-510 | filling the block at the end keeps a file dense: block bn exists if and only if bn < ceil(size / BSIZE), and the indirect block exactly when it is needed |
| FsLedger.SpareIsUnused | Assignment5/xv6-public/fs.c:57-96 | as many blocks are free in the bitmap as the account of owners leaves, and none exactly when balloc halts |
| FileSystems.FileSystem.Readi | Assignment5/xv6-public/fs.c:454-477 | the slice of the file clipped to its end, or -1 past the end or on wrap-around; nothing at all changes, so a read allocates no block |
| FileSystems.FileSystem.Writei | Assignment5/xv6-public/fs.c:483-512 | the file is spliced at the offset and grows to the maximum of old size and end, every other file is as before, a rejected write changes nothing; the cached inodes equal the ones on disk again; it halts if and only if fewer blocks are free than the file has to gain, and otherwise uses exactly these; a write of at most three blocks' worth logs at most MAXOPBLOCKS blocks; every block that changes, and the block of every inode that changes on disk, is in the log |
| FsContent.WriteCommits | Assignment5/xv6-public/fs.c:507-510 | updating the inode only on growth is enough: without growth no inode has changed at all |
| FsContent.LogTotal | Assignment5/xv6-public/file.c:133-152 | a write of at most three blocks' worth logs at most 4 data, 4 bitmap and 1 indirect block, for any offset |
| FsContent.LogBudget | Assignment5/xv6-public/file.c:133-152 | it touches at most four data blocks, and of these at most three are new |
| FileSystems.FileSystem.Itrunc | Assignment5/xv6-public/fs.c:409-436 | exactly the inode's blocks become free and exactly their bitmap blocks and the inode's block are logged; its file is empty, all other files and inodes are untouched; "freeing free block" is never reached; every block that changes is in the log |
| FileSystems.FileSystem.EndOp | Assignment5/xv6-public/file.c:138-150 | a commit writes the blocks in the log and no others; afterwards the committed blocks and inodes are all that the operation has made, so that nothing has bypassed the log |
| FsLayout.CoveredIsInstalled | Assignment5/xv6-public/fs.c:483-512 | if every block that differs from its committed copy is in the log, installing the log makes the two agree |
| FsFree.DrainingFrees | Assignment5/xv6-public/fs.c:416-431 | each block that truncation comes to is still marked in use, and freeing it keeps the rest of the account |
| FsFree.EmptiedKeepsOthers | Assignment5/xv6-public/fs.c:409-436 | every other file reads the same after truncation |
| FsLog.FitsExactlyWhen | Assignment5/xv6-public/fs.c:333-353 | freeing an inode keeps to the MAXOPBLOCKS reserved blocks if and only if it involves at most nine bitmap blocks, and leaves room in the log if and only if these and the inode's block do not fill it |
| FsLog.FreedMapsNamed | Assignment5/xv6-public/fs.c:409-436 | these are the bitmap blocks of the blocks that the inode names, directly, as its indirect block, or in it |
| FsLog.SomeInodeExceeds | Assignment5/xv6-public/fs.c:409-436 | a sound disk with a dense, unlinked file of ten blocks that exceeds the reservation |
| FsLog.SomeInodeOverruns | Assignment5/xv6-public/fs.c:333-353 | a sound disk with a dense, unlinked file of 28 blocks for which log_write finds the log full |
| FsLog.SmallDiskFits | Assignment5/xv6-public/fs.c:82-96 | every inode keeps to the reservation on a disk of at most nine bitmap blocks, and within the log on one of at most 27, if the log has the usual size |
| OpenFiles.FileTable.FileWrite | Assignment5/xv6-public/file.c:118-156 | the loop over transactions is one write of all n bytes if they fit the largest file, and otherwise -1 with a prefix of whole chunks written; the offset follows, and each transaction fits the log; it halts if and only if fewer blocks are free than the accepted bytes need; whatever it has written is committed when it returns |
| OpenFiles.FileTable.WriteChunk | Assignment5/xv6-public/file.c:138-150 | a transaction writes its whole chunk, or nothing, or halts, each exactly when that is due, so that "short filewrite" is never reached; it keeps to the blocks it reserved |
| OpenFiles.FileTable.FileRead | Assignment5/xv6-public/file.c:97-113 | the slice at the offset, which moves on by its length and stays within the file |
| OpenFiles.FileTable.FileAlloc | Assignment5/xv6-public/file.c:27-41 | an unused entry gets one reference, or all entries are in use |
| OpenFiles.FileTable.FileDup | Assignment5/xv6-public/file.c:45-53 | one more reference, nothing else |
| OpenFiles.FileTable.FileClose | Assignment5/xv6-public/file.c:57-80 | the object behind an entry is released exactly when the last reference goes: a pipe end is closed, or the inode loses a reference, and is freed if that was its last and it has no links; it halts if and only if the inode to be freed overruns the log; whatever it has freed is committed when it returns |
| OpenFiles.FileTable.Iput | Assignment5/xv6-public/fs.c:333-353 | uninterrupted: the inode is truncated and freed exactly if it has no links and this is the last reference, and no other inode or count changes; in a transaction of its own, more blocks than MAXOPBLOCKS are logged if and only if the inode is freed and exceeds the reservation, and a log_write finds the log (LOGSIZE blocks, or its size on disk less the header) full if and only if the inode is freed and overruns it |
| InodeCache.Icache.Iget | Assignment5/xv6-public/fs.c:243-273 | the scan finds the entry in use for the inode, or else takes the first unused one; it panics only when all are in use |
| InodeCache.Ialloc | Assignment5/xv6-public/fs.c:196-215 | the first free inode from 1 on is claimed and cleared, and no other is touched; it panics exactly if there is none |
| InodeSteps.StepKeeps | Assignment5/xv6-public/fs.c:243-353 | every atomic step of every user keeps the cache's invariant |
| InodeRuns.EveryRun | Assignment5/xv6-public/fs.c:243-353 | in every interleaving: at most one entry in use per (dev, inum), the count of an entry is the number of pointers to it, "ilock: no type" is never reached, whoever holds an unedited inode sees what is on disk, and an iput that truncates has the only pointer to an inode that no directory names |
| InodeRuns.LockGivesDiskCopy | Assignment5/xv6-public/fs.c:289-313 | when ilock has the lock, it ends with the inode as it is on disk, and the inode has a type |
| InodeRuns.ReuseFindsEntry | Assignment5/xv6-public/fs.c:338-351 | an ialloc that reuses the number while the last iput is under way gets the same entry, which is marked invalid already or will be before its lock is released, so that it is read from disk again |
| InodePuts.PutFreesExactlyWhen | Assignment5/xv6-public/fs.c:333-353 | an iput that no other step interrupts frees the inode if and only if the entry is valid, has no links and one pointer; no other entry or inode changes |
| InodeLeaks.OverlappingPutsLeak | Assignment5/xv6-public/fs.c:337-352 | two overlapping iputs of the last two pointers to an unlinked inode both see two pointers, and neither frees it |
| InodeLeaks.LeakIsForever | Assignment5/xv6-public/fs.c:196-215 | after that no run frees or reuses the inode |
| InodeLeaks.SomeRunLeaks | Assignment5/xv6-public/fs.c:325-353 | from any empty cache a run leads to such a leak |
| InodeLeaks.LeaksExactlyWhen | Assignment5/xv6-public/fs.c:333-353 | of all steps of all users, just the decrement of the last pointer by an iput that left a typed inode without links on disk leaks an inode |
| InodeLeaks.OrderlyRunsLeakNothing | Assignment5/xv6-public/fs.c:333-353 | in runs where no two iputs of an entry overlap between the count and the decrement, and none tests an unlinked inode's entry that was never read, nothing leaks |
| Directories.Dirlookup | Assignment5/xv6-public/fs.c:526-549 | lookup in the map that the directory stands for, names compared on their first DIRSIZ bytes |
| Directories.Dirlink | Assignment5/xv6-public/fs.c:553-579 | -1 and no change if the name is bound; otherwise exactly one more binding, names stay unique and every other file is as before; it halts if and only if no entry is free, and the directory is of the largest size or the disk has too few free blocks for one more |
| Directories.BindingsMeaning | Assignment5/xv6-public/fs.c:534-545 | a name is bound to a number exactly when some live entry says so |
| Directories.BindingAdded | Assignment5/xv6-public/fs.c:565-576 | filling a free entry, or appending one, adds one binding and touches no other |
| Directories.FindIsLookup | Assignment5/xv6-public/fs.c:526-549 | the first match is the map's value |
| Directories.LinkBinds | Assignment5/xv6-public/fs.c:574-576 | writing the bytes of the entry at its offset is what binds the name |
| Directories.LinkedIsFoundExactlyWhen | Assignment5/xv6-public/fs.c:526-579 | after dirlink a lookup of the name gives the linked inode if and only if its number is not 0 and fits 16 bits |
| Directories.CanonOfPadded | Assignment5/xv6-public/fs.c:518-521 | a stored name compares as the name that was given |
| Directories.DirentLayout | Assignment5/xv6-public/fs.c:574-576 | an entry's bytes are the number, low byte first, and the name filled up with NULs |
| Paths.Skipelem | Assignment5/xv6-public/fs.c:597-619 | the first element of the path, cut to DIRSIZ, and the rest without leading slashes; none exactly if the path has no elements |
| Paths.ElementsOfJoined | Assignment5/xv6-public/fs.c:586-595 | splitting a path that was joined with slashes gives its elements back |
| Paths.ElementsOfLaid | Assignment5/xv6-public/fs.c:597-619 | a path of names with any runs of slashes before, between and behind them has just these names as elements, each cut to DIRSIZ |
| Paths.EveryPathIsLaid | Assignment5/xv6-public/fs.c:597-619 | and every path is one of those |
| Paths.SlashDoubled | Assignment5/xv6-public/fs.c:597-619 | one slash more beside a slash, anywhere, changes no element |
| Paths.ElementsAreGood | Assignment5/xv6-public/fs.c:597-619 | every element of any path is non-empty, without slash, at most DIRSIZ long |
| Paths.Walker.Namex | Assignment5/xv6-public/fs.c:626-658 | the fold of lookup over the elements from the root or the current directory; exactly one new reference to the result and none otherwise, no lock kept, no file changed |
| Paths.LookupInParent | Assignment5/xv6-public/fs.c:661-671 | namei is lookup of the last element in what nameiparent finds |
| Paths.ResolveInTwo | Assignment5/xv6-public/fs.c:626-658 | walking two stretches of a path in turn is walking the whole |
| Paths.ResolveOne | Assignment5/xv6-public/fs.c:626-658 | walking one element is one lookup |
| VmLedger.NoFrameNamedTwice | Assignment5/xv6-public/vm.c:36-80 | no two entries of any address spaces name the same frame as user page or page table, and none names a directory |
| VmLedger.EveryFrameAccounted | Assignment5/xv6-public/vm.c:284-298 | every frame is free, in a caller's hands, a directory, or named by an entry, and a free one is nothing else |
| VirtualMemory.Machine.Walkpgdir | Assignment5/xv6-public/vm.c:36-55 | the page table of an address; adding one changes no mapping, and its directory entry is present, writable and open to the user; without alloc nothing changes |
| VirtualMemory.Machine.Mappages | Assignment5/xv6-public/vm.c:61-80 | for any range: the pages map to consecutive frames, present and otherwise with exactly the flag bits of perm, all of them, or up to where kalloc refused a page table; no page was mapped before, and it halts only if one was |
| VmLedger.EntryGrants | Assignment5/xv6-public/vm.c:73 | an entry written with pa, perm and PTE_P is present, names the frame, and has each other flag bit of perm, for every perm |
| VirtualMemory.Machine.Setupkvm | Assignment5/xv6-public/vm.c:118-136 | a space in which the pages of kmap's lines map to their frames, each writable exactly if its line has PTE_W and none open to the user, and no other page is mapped, in frames that were free; or, exactly if kalloc refused a frame, 0 with the free frames as before |
| VirtualMemory.Machine.Allocuvm | Assignment5/xv6-public/vm.c:222-249 | user pages grow from [0, PGROUNDUP(oldsz)) to [0, PGROUNDUP(newsz)) by fresh zeroed frames; on failure every mapping is as before and at most page tables stay |
| VirtualMemory.Machine.Deallocuvm | Assignment5/xv6-public/vm.c:256-279 | exactly the pages from PGROUNDUP(newsz) on are given back; jumping over a missing page table is the same as going page by page |
| VmSpace.GrownThenCleared | Assignment5/xv6-public/vm.c:222-279 | giving back what was just added restores every mapping and every frame's role |
| VirtualMemory.Machine.Freevm | Assignment5/xv6-public/vm.c:284-298 | every frame of the space is freed, once, and no other frame |
| VmSpace.AddedThenGone | Assignment5/xv6-public/vm.c:316-345 | building a space and taking it apart restores the free frames exactly |
| VirtualMemory.Machine.Copyuvm | Assignment5/xv6-public/vm.c:316-345 | a new space with the same pages and flags, or 0 with the free frames exactly as before; its panics are not reached |
| VmSpace.CopyIsApart | Assignment5/xv6-public/vm.c:316-345 | the copy has equal contents and flags, in frames that are different from each other and from the original's |
| VirtualMemory.Machine.Clearpteu | Assignment5/xv6-public/vm.c:303-311 | one page loses the user bit and keeps its frame and every other flag; nothing else changes |
| VirtualMemory.Machine.Uva2ka | Assignment5/xv6-public/vm.c:350-360 | the frame behind the address exactly if the user may use it; it reads through a null pointer exactly if there is no page table |
| VirtualMemory.Machine.Copyout | Assignment5/xv6-public/vm.c:366-386 | success exactly if every byte is open to the user, and then exactly those bytes of the space are written; it reads through a null pointer if and only if everything before some address is open and that address has no page table |
| VirtualMemory.Machine.Loaduvm | Assignment5/xv6-public/vm.c:198-217 | the file's bytes are at the address, or -1 exactly if the file is too short; it halts exactly on a misaligned address, and "address should exist" is not reached |
| ExecImage.LoadSegment | Assignment5/xv6-public/exec.c:41-56 | for any header bytes, no panic; it succeeds if and only if the header passes the tests, the file is long enough and no frame is refused; then the image of the earlier segments has become the image with this one, zeros up to memsz |
| ExecImage.LoadImage | Assignment5/xv6-public/exec.c:33-59 | succeeds exactly for a loadable file, unless kalloc refuses; then memory holds the bytes that the headers say, and size and entry point are the file's |
| ExecImage.SegmentInImage | Assignment5/xv6-public/exec.c:41-56 | when segments do not overlap, that is each one's file bytes at its address, and zeros from filesz to memsz |
| ExecFormat.HeaderRead | Assignment5/xv6-public/exec.c:33-43 | of a file that begins with an ELF header written field by field, exec uses the entry point and the offset and number of program headers that were written |
| ExecFormat.HeaderReadBack | Assignment5/xv6-public/exec.c:41-43 | and of each program header its type, offset, address, file size and memory size |
| ExecStack.MakeStack | Assignment5/xv6-public/exec.c:62-68 | the top page is open to the user and the page below it is not, with the image untouched; it fails exactly if the space is too large or a frame is refused |
| ExecStack.PushStrings | Assignment5/xv6-public/exec.c:71-80 | the strings with their NULs lie one below the other in the page above the guard page, none overlapping, and at most MAXARG of them; that, -1, or a read through a null pointer is decided by the lengths alone |
| ExecStack.StaysAboveGuard | Assignment5/xv6-public/exec.c:74-78 | a write below the stack pointer that succeeds did not reach into the guard page |
| Bytes.FlatWord | Assignment5/xv6-public/exec.c:81-88 | the words of the argument block read back from the bytes that were copied out, low byte first |
| ExecStack.StackComplete | Assignment5/xv6-public/exec.c:71-88 | writing the block below the strings leaves the strings whole, and in memory there are: at sp a return address, at sp + 4 argc, at sp + 8 the address of argv, there the addresses of NUL-terminated copies of the arguments and a null, all in one page |
| ExecStack.ShortArgumentsAreSafe | Assignment5/xv6-public/exec.c:71-88 | arguments of less than a page never cause a read through a null pointer |
| ExecStack.LongArgumentReadsNull | Assignment5/xv6-public/exec.c:74-78 | with xv6's kernel map and a program without segments, an argument that does |
| Exec.ReadsNullExactlyWhen | Assignment5/xv6-public/exec.c:11-114 | exec reads through a null pointer if and only if the program can be loaded, and the first argument that does not fit below its stack pointer wraps to where there is no page table |
| Exec.Exec | Assignment5/xv6-public/exec.c:11-114 | success: the file's bytes and zeros are in place, with argc, argv and the strings in memory where main looks for them and the file's entry point; every frame of the old space is free, and every other process's pages are as before. Failure: no space, no frame and no field has changed. Inode references and transactions balance. Which of these, or a read through a null pointer, is decided by the file and the arguments, unless kalloc refuses, and then it fails |
| ShellGrammar.RoundTrip | Assignment5/xv6-public/sh.asm:582-1278 | parsing the printed form of any well-formed command gives the command back |
| ShellGrammar.RoundTripExactly | Assignment5/xv6-public/sh.asm:762-1278 | it does so exactly for the commands that the parser can produce, and these are the well-formed ones |
| ShellGrammar.LineGood | Assignment5/xv6-public/sh.asm:1124-1207 | what the parser reads from any text is well formed, with fewer than ten words a command, or it halts |
| ShellSyntax.GrammarIsRead | Assignment5/xv6-public/sh.asm:582-1278 | every line of the grammar (parts, groups, `|`, `&`, `;`, redirections by `<`, `>` and `>>` anywhere among the words), with any blanks between its tokens, is parsed to what it means: `>>` and `>` are output, `|` binds closest and `;` least, both to the right |
| ShellSyntax.AppendIsOutput | Assignment5/xv6-public/sh.asm:840-910 | `>>` opens its file just as `>` does, whatever follows |
| ShellParser.Parser.GetToken | Assignment5/xv6-public/sh.asm:586-673 | the cursor moves over exactly one token of the grammar, and q and eq delimit it |
| ShellParser.Parser.ParseRedirs | Assignment5/xv6-public/sh.asm:824-916 | the redirections in front of the cursor are wrapped around the node, in order; it halts exactly where the grammar rejects |
| ShellParser.Parser.ParseExec | Assignment5/xv6-public/sh.asm:922-1062 | the node built in place, which redirections may point to before its words are filled in, is the tree of the grammar |
| ShellParser.Parser.ParseLine | Assignment5/xv6-public/sh.asm:1124-1207 | the same for lists and background commands; the recursion ends, by remaining characters and grammar level |
| ShellParser.Parser.NulTerminate | Assignment5/xv6-public/sh.asm:1283-1381 | a NUL is written behind every word of the tree, and nowhere else |
| ShellParser.WordsSurvive | Assignment5/xv6-public/sh.asm:1283-1381 | cutting all words off in one shared buffer leaves each word whole |
| ShellParser.Parser.ParseCmd | Assignment5/xv6-public/sh.asm:1383-1436 | halts exactly on the lines that the grammar rejects; otherwise the C strings of the tree are the words of the command |
| ShellParser.ParsePrinted | Assignment5/xv6-public/sh.asm:1383-1436 | a printed command in memory parses, in place, to the same command |
| Allocator.Heap.Free | Assignment5/xv6-public/sh.asm:2332-2387 | the block goes back in address order, joined with the neighbours it touches; both search loops end, and the circle, the live blocks and the arena stay accounted for |
| Allocator.Heap.Malloc | Assignment5/xv6-public/sh.asm:2431-2558 | new live units that overlap no other block, or 0; the arena grows only if no free block is large enough, and the search after growing ends; the system is asked to shrink exactly if the request rounds to 2 Gbytes or more and no free block fits; 0 is returned exactly if the system refused memory once, and an address otherwise |
| Allocator.Heap.Morecore | Assignment5/xv6-public/sh.asm:2462-2503 | the new units are on the free list and some free block is large enough, or nothing changed; it asks to shrink exactly from 2 Gbytes on; nothing changes exactly if the system refuses, and it is asked for 4096 units at least |
| Allocator.FreeKeepsHeap | Assignment5/xv6-public/sh.asm:2332-2387 | the pointer and size words that free writes make a coalesced circle, and every unit is still in exactly one block |
| Allocator.CutKeepsHeap | Assignment5/xv6-public/sh.asm:2459-2480 | the same for the words that malloc writes when it takes the tail of a block or the whole block |
| Allocator.SearchStops | Assignment5/xv6-public/sh.asm:2337-2339 | free's two tests stop its search exactly at the last block below, including the wrap of the circle |
| Allocator.FreeListIsCanonical | Assignment5/xv6-public/sh.asm:2332-2387 | a coalesced free list is determined by the units it covers |
| Allocator.HeapIsCanonical | Assignment5/xv6-public/sh.asm:2332-2387 | so the free list depends on the live blocks and the arena, not on the order of calls |
| Allocator.UnitsHoldRequest | Assignment5/xv6-public/sh.asm:2441-2449 | a block holds the bytes asked for if and only if the rounding up does not wrap around, and it never has a unit too many |
| Allocator.AskIsPositive | Assignment5/xv6-public/sh.asm:2462-2467 | the system is asked to grow if and only if the request stays below 2 Gbytes (or wraps to one unit) |
| Pipes.Pipe.Write | Assignment5/xv6-public/pipe.c:79-98 | on the ring buffer with wrapping 32-bit counters: bytes are appended to the stream until all are written, or it is full and the writer sleeps, or gives up with -1 because it was killed or nobody reads |
| Pipes.Pipe.Read | Assignment5/xv6-public/pipe.c:101-121 | the bytes handed out are the next ones of the stream, as many as there are up to n, and that is the answer; 0 exactly at the end of the stream or if nothing was asked for; it waits, or is -1 if killed, exactly on an empty pipe that can still be written to |
| Pipes.CountersTell | Assignment5/xv6-public/pipe.c:84-110 | the tests on the wrapped counters tell full from empty |
| Pipes.SlotOfWrapped | Assignment5/xv6-public/pipe.c:93-114 | a wrapped counter names the slot that the unwrapped one names |
| Pipes.StepKeeps | Assignment5/xv6-public/pipe.c:60-121 | every stretch of every process keeps the stream, and sleeping writers imply a full pipe with its read end open |
| Pipes.EveryRun | Assignment5/xv6-public/pipe.c:60-121 | in every run, with kills that wake sleepers: bytes read followed by bytes buffered are the bytes written, at most PIPESIZE are buffered, sleeping writers have a reason, and the page is freed at most once, with nobody inside |
| Pipes.ReadersHalf | Assignment5/xv6-public/pipe.c:85-90 | sleeping readers imply an empty pipe with its write end open after a step if and only if the step is not the early return past a sleeping reader |
| Pipes.SaneRunsWake | Assignment5/xv6-public/pipe.c:79-121 | runs without that return keep it |
| Pipes.LostWakeup | Assignment5/xv6-public/pipe.c:85-88 | for any reader and any writer of an empty pipe, a run in which the reader sleeps on a full pipe |
| Locks.SpinLockIsSafe | Assignment5/xv6-public/spinlock.c:25-97 | in every interleaving of the individual stores: at most one CPU in the critical section, neither panic is reached, interrupts are off from pushcli on, and the lock is locked exactly if it has an owner |
| Locks.AcquireAlone | Assignment5/xv6-public/spinlock.c:25-43 | a CPU that runs alone, from anywhere in acquire, gets a free lock in at most five steps |
| Locks.ReleaseAlone | Assignment5/xv6-public/spinlock.c:47-68 | and frees it again in at most five, from anywhere in release |
| Locks.SleepLockIsSafe | Assignment5/xv6-public/sleeplock.c:22-53 | at most one holder, pid names it, a process sleeps only while the lock is locked whenever the inner lock is free, and holdingsleep answers rightly, in every interleaving, with kills that wake sleepers |
| Locks.AcquireSleepAlone | Assignment5/xv6-public/sleeplock.c:22-32 | a process that runs alone gets a free sleep lock in at most six steps |
| Locks.ReleaseSleepAlone | Assignment5/xv6-public/sleeplock.c:34-42 | a holder that runs on frees it and wakes every process that sleeps on it |
| Locks.NestingRestores | Assignment5/xv6-public/spinlock.c:104-125 | any matched nesting restores the depth and the interrupt flag, and interrupts are off inside it |
| Booth.EveryRun | Assignment4/q2.c:101-216 | in every interleaving of single reads and locked passages: occupancy is the number of robots in the slots and within bounds, a machine on offer has room, no assert fails, at most N + 1 votes and no voter twice; once a robot has stopped, each of 1..N was given to exactly one robot or has voted |
| Booth.RobotKeepsSlots | Assignment4/q2.c:135-172 | every step of a robot keeps the slots' invariant, from which the program's asserts follow |
| Booth.FetchedIsGivenOnce | Assignment4/q2.c:194-205 | a number that was fetched is carried by one robot and no other, or cast |
| Booth.WhenAllStopped | Assignment4/q2.c:118-134 | when all robots have stopped, 1..N have voted, and one more vote was cast if and only if some turn handed out number 0 |
| Booth.ZeroExactlyWhen | Assignment4/q2.c:194-205 | a turn hands out number 0 if and only if a robot that has passed the test fetches with no voter left unassigned |
| Booth.OneVoteTooMany | Assignment4/q2.c:118-134 | from any opening booth with voters, two robots and a machine with a slot, a run that casts votes N, N - 1, ..., 1 and then 0 |
| Booth.MainCanGoWrong | Assignment4/q2.c:75-99 | main's booth of 100 voters, 100 robots and 100 machines of one slot can cast 101 votes |
| Booth.TakeThenLeave | Assignment4/q2.c:148-171 | taking a slot of the machine on offer and leaving it again restores the occupancy, and the booth is in order in between and after |
| Booth.AtomicTestIsEnough | Assignment4/q2.c:194-205 | with the test and the decrement in one step exactly 1..N vote |
| Grep.Match | Assignment5/xv6-public/grep.c:73-82 | true if and only if the pattern's declarative meaning holds: a start (or the beginning, after ^) and a split into one piece per item |
| Grep.MatchHere | Assignment5/xv6-public/grep.c:85-96 | true if and only if some split of a beginning of the text fits the items, with a final $ meaning the end |
| Grep.MatchStar | Assignment5/xv6-public/grep.c:99-106 | the same with a run of one character in front |
| Grep.HereFirst | Assignment5/xv6-public/grep.c:85-106 | a split exists exactly if some first piece fits and the rest of the text matches the rest |
| Grep.Grepper.Grep | Assignment5/xv6-public/grep.c:11-36 | for any file: writes each matching line that ends within the buffer, in order, and drops the buffer otherwise; the matching lines exactly, if all are whole |
| Grep.SelectsExactlyWhen | Assignment5/xv6-public/grep.c:11-36 | what is written is the matching lines, whatever the pattern, if and only if every newline-terminated line fits the buffer and has no NUL in it |
| Grep.LongLineIsLost | Assignment5/xv6-public/grep.c:30-31 | a line as long as the buffer, of which only the newline is written |

## Left out

- Device files, `stati`, `readsb`, console output and `pipealloc`: I/O or plain set-up.
- The buffer cache, the log, the scheduler and the page allocator are used through what they promise: a block is read and written whole, `log_write` records a block number and halts if it finds as many there as the log has room for, `kalloc` takes any free frame or fails, `sleep` gives up the lock and blocks in one step, `wakeup` wakes every sleeper on a channel. Crash recovery is not modelled.
- Layout constants such as the block size, DIRSIZ, the entry sizes and the inodes per block have the values of the usual headers, which are not part of this model; the kernel's mappings are any list of ranges above KERNBASE. A disk's log has room for the blocks that one operation reserves.
- `FileSystems.FileSystem` and `OpenFiles` run one operation at a time, so that no transaction is open when one begins; the interleavings are those of `InodeCache`, `Pipes` and `Locks`. In `InodeCache` the bodies of files are not modelled, a directory is the set of inodes it names, and it is assumed that only inodes with links are named.
- Directories.Dirlookup: the reference that `iget` takes on the inode found is not in this contract; `Paths.Walker` counts it.
- Directories.Dirlink: the reference to an entry that is already present, which is taken and given back, is not modelled.
- Paths.Walker.Namex: assumes that every inode a directory names has links, so that the iput of a directory on the way frees nothing, and does not model other processes changing directories meanwhile.
- Paths.Walker.Iget: references are counters per inode; the cache entries behind them are modelled in `InodeCache`.
- OpenFiles.FileTable.FileRead: the pipe case is `Pipes.Pipe.Read`, and the panic for an entry without an object is excluded by the requires; the same for FileWrite.
- VirtualMemory.Machine.Uva2ka: a read through a null page-table pointer is the outcome Panic; that it may find the calling process's own page there, and go on, is not modelled.
- Exec.Exec: that the arguments are shorter than KERNBASE is assumed, since they come from user memory. The transaction and the inode reference are counters, and what `iunlockput` may free is not modelled here. Process name, trap frame beyond eip and esp, and `switchuvm` are left out.
- VirtualMemory.Machine.Kalloc: the junk that freed frames are filled with is arbitrary contents.
- Allocator.Heap.Malloc: what `sbrk` does to the arena when it is asked to shrink is the outcome Panic. Addresses are unbounded, counted in header-size units.
- ShellParser.Parser.ParseExec: the word table of a command is a sequence that grows, with the limit of ten checked where the source checks it; `malloc` does not fail, as in the source, which does not test for it.
- Running a command (`runcmd`) and `cd` in the shell: system calls only.
- Grep.Grepper.Grep: reads are full until the end of the file. Usage message and file opening are left out.
- Booth: the printing, the busy wait of `main`, the sleeping time between offers, and termination, which the source does not guarantee.
- Memory ordering and `getcallerpcs` in the spin lock; every store is one step that all CPUs see in order.
- WonderShell, `q1`, the merge sorts of Assignment 4 and the small user programs: job control over system calls, or textbook loops that would add only easy members.
