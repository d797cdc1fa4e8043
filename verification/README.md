# NachOS kernel, verified

A Dafny model of the core of a NachOS kernel (`nachOS/code`) and of the server registry of a small HTTP load balancer
(`src`), with proofs of what they promise. Every object whose methods update it is a class here; what its methods do is
stated against functions and predicates on values, and the laws are lemmas about those.

| file | models | main results |
|---|---|---|
| `Words.dfy` | 32-bit arithmetic of C, words as bytes | round trips, `divRoundUp` |
| `BitMap.dfy` | `userprog/bitmap.cc` | first-fit allocation is fresh, exact and undone by freeing |
| `SynchDisk.dfy`, `FileHeader.dfy`, `OpenFile.dfy`, `Directory.dfy` | the parts of the file system | byte-granular reads and writes over sectors refine a flat byte array |
| `Volume.dfy`, `FsLaws.dfy`, `FileSystem.dfy`, `FsTest.dfy` | `filesys/filesys.cc`, `fstest.cc` | the ownership invariant over format, Create, Remove and writes; Create is atomic and undone by Remove; Copy then Print is the identity |
| `HeldFile.dfy` | files that stay open after `Remove` | exactly when writing through one harms the volume, or another file |
| `Bits.dfy`, `Mult.dfy`, `Isa.dfy`, `Translate.dfy`, `Machine.dfy` | the MIPS simulator and its virtual memory | bitwise operators bit by bit; the 64-bit product; one instruction refines a step function, and so do runs; precise, restartable traps; virtual memory is a flat array |
| `Encoding.dfy`, `Manual.dfy`, `Accesses.dfy` | the same, against a MIPS I manual | every encoding; every result on integers; loads and stores on the bytes of virtual memory |
| `List.dfy`, `Interrupt.dfy` | `threads/list.h`, `machine/interrupt.cc` | the pointer list refines a sequence; events fire in order, never early, exactly once |
| `Threads.dfy` | `thread.cc`, `scheduler.cc`, `Semaphore` | no lost wakeup, one place per thread, first come first served, over all runs |
| `Frames.dfy` | page tables and frame counts of `userprog/addrspace.cc` | counts are exact over load, fork and destroy; spaces are isolated |
| `DiskTiming.dfy` | the timing of `machine/disk.cc` | a request ends with the first pass of its sector after the seek; the track-buffer test |
| `Balancer.dfy` | registry and round robin of `src/Balanceador.cpp` | last message wins, print/parse round trip, fairness |

How the pieces are modelled:

- The disk is a sequence of 1024 sectors of 4096 bytes. `Volumes.Sound` is the file system's invariant: the marked
  sectors are, as a multiset, exactly sectors 0 and 1, the data of the bitmap and directory files, and for each entry in
  use its header and data sectors; and names are distinct in their first 9 characters.
- The processor's registers are 40 words. `Machines.Stepped` is one instruction as a function of registers, memory and
  translation table; the methods of `Machines.Machine` are the program, and `OneInstruction` is proved to compute it.
- `Interrupts.Interrupt` runs device handlers from a script: an arbitrary function that says, for the n-th call, what is
  scheduled (always strictly in the future, as `Schedule` asserts) and whether a context switch is wanted. A ghost record
  keeps all that was ever scheduled, and what fired when.
- What the processor does is said twice: by the step function, which the methods compute, and by `Encoding`, `Manual` and
  `Accesses`, which say it independently, with the numbers of the manual and in integers, and prove it of the step function.
- A thread can lose the processor in the middle of `P`, inside `Sleep`, so the semaphore protocol is a state machine.
  A step runs a thread from one point at which control can move to the next; interrupt handlers may call `V` whenever
  interrupts are on or the machine idles. A run is any sequence of enabled steps from boot. The methods of
  `Threads.Kernel` are the operations themselves, each proved to make its step.

Where the code does not do what is said of it, with the input that shows it and the exact condition:

- The comment at `nachOS/code/threads/synch.cc:93` says that the thread woken by `V` consumes the V immediately. The code
  makes it re-check, and another thread can be faster (`Threads.WokenThreadMaySleepAgain`). Over all runs, it gets its
  unit exactly when the Ps completed since have not used up the value and the Vs (`Threads.GetsItsUnitIff`).
- `OP_OR` computes rs | rs, and `OP_SRL` and `OP_SRLV` shift arithmetically (`Isa.OrMissesABit`, `SrlBringsInTheSign`).
  `Isa.OrOnlyCopies` and `Isa.ShiftIsArithmetic` say for which operands the results are nevertheless right.
- `AddrSpace` asserts that a program has at most 1024 pages, but `threadsOnPhyPage` has 32 counts
  (`Frames.AssertedSizeIsNotEnough`). `Frames.CountsExistIff` says exactly which loads stay inside it, and the contracts
  of `Load` and `Fork` ask for that.
- A pending interrupt that is not due yet is taken out and put back, and goes behind all others due at the same time, so
  those need not fire in the order in which they were scheduled (`Interrupts.SecondFiresFirst`). A put-back keeps the order
  exactly when everything due together with the head is the same as the head (`Interrupts.PutBackGoesBehindEquals`).
- `Idle` can leave a timer interrupt pending although it is due (`Interrupts.TimerIsLeftDue`). That happens exactly when
  everything pending is due at the time reached, a timer's interrupt is last, and no handler of the others schedules
  anything (`Interrupts.Interrupt.Idle`).
- `ReadAt` and `WriteAt` clip a request by a sum that can wrap around (`OpenFiles.ClippingCanFail`); the clipping is right
  exactly when the request is turned away or its end is an int (`OpenFiles.ClipsExactlyIfEndFits`), which the contracts ask
  for.
- A file left open when its name is removed can be written through after its sectors have gone to other files.
  `HeldFiles.HarmlessIff` says exactly when the volume stays sound under every such write, and `IsolatedIff` (by name:
  `NameIsolatedIff`) exactly when another file keeps its bytes too. After one Remove and one Create the volume always stays
  sound (`OneReuseIsHarmless`), but the new file is safe only if one of the two is empty (`NextFileIsSafeIff`); with a
  second Create a header can be overwritten, and `FileLost` is such a run from a formatted disk. Where a request covers a
  block in part, at the end of the file, `WriteAt` fills the rest of the sector from a buffer that it allocates and does not
  initialise (`nachOS/code/filesys/openfile.cc:162`), so then those bytes are not the writer's choice.
- `agregarServidor` copies the host into a field without a terminator, so the address that clients are sent to is the host
  only if the field held a terminator behind it before (`Balancer.HostReadBackIff`, `HostNotReadBack`).
- Removing a server does not adjust the round-robin index, which is then out of range exactly when it was the last one
  (`Balancer.Balanceador.EliminarServidor`, `ServerGone`); the next dispatch brings it back (`Elegir`).

## Model

| member | source | states |
|---|---|---|
| `Words.DivRoundUpIsLeast` | nachOS/code/threads/utility.h:46 | divRoundUp is the least number of blocks that hold n bytes, and is not positive for sizes that are not |
| `Words.WordsRoundTrip` | nachOS/code/filesys/filehdr.cc:77-94 | words written as bytes and read back are the same words |
| `BitMaps.WithBitBits` | nachOS/code/userprog/bitmap.cc:47-65 | setting or clearing bit k of a word changes bit k and no other |
| `BitMaps.BitIsQuotient` | nachOS/code/userprog/bitmap.cc:74-83 | bit k of a word counts for 2^k |
| `BitMaps.CountClearZero` | nachOS/code/userprog/bitmap.cc:94-119 | the count of clear bits is zero exactly when every bit is set, and exactly when the search finds none |
| `BitMaps.FirstClearBelow` | nachOS/code/userprog/bitmap.cc:94-103 | first fit keeps to the front: with fewer than m bits set, the bit handed out is below m |
| `BitMaps.PicksAreFresh` | nachOS/code/filesys/filehdr.cc:46-51 | n calls of Find on a map with n clear bits give n distinct positions that were clear, and the clear count drops by exactly n |
| `BitMaps.ReleaseUndoesPicks` | nachOS/code/filesys/filehdr.cc:61-68 | freeing exactly what was picked restores the map bit for bit |
| `BitMaps.BitMap.constructor` | nachOS/code/userprog/bitmap.cc:20-27 | a new map is all clear |
| `BitMaps.BitMap.Mark` | nachOS/code/userprog/bitmap.cc:46-51 | sets one bit of the packed map and no other |
| `BitMaps.BitMap.Clear` | nachOS/code/userprog/bitmap.cc:60-65 | clears one bit of the packed map and no other |
| `BitMaps.BitMap.Test` | nachOS/code/userprog/bitmap.cc:74-83 | reads the bit |
| `BitMaps.BitMap.Find` | nachOS/code/userprog/bitmap.cc:94-103 | marks and returns the first clear bit; returns -1 and changes nothing when there is none |
| `BitMaps.BitMap.NumClear` | nachOS/code/userprog/bitmap.cc:110-119 | the number of clear bits |
| `SynchDisks.SynchDisk.ReadSector` | nachOS/code/filesys/synchdisk.cc:72-79 | the sector, and only it, arrives in the buffer |
| `SynchDisks.SynchDisk.WriteSector` | nachOS/code/filesys/synchdisk.cc:90-97 | exactly one sector of the disk changes |
| `FileHeaders.HeaderRoundTrip` | nachOS/code/filesys/filehdr.cc:77-94 | a header written to its sector and fetched again is the same header |
| `FileHeaders.HeaderLayout` | nachOS/code/filesys/filehdr.h:60-63 | where the length, the block count and each sector number are on disk, least significant byte first |
| `FileHeaders.FileHeader.Allocate` | nachOS/code/filesys/filehdr.cc:41-52 | all or nothing: fails exactly when too few sectors are clear, leaving the map alone; otherwise the header lists the first-fit picks, which are what the map gains |
| `FileHeaders.FileHeader.TakeSectors` | nachOS/code/filesys/filehdr.cc:49-50 | the loop never overruns the table and Find never fails in it |
| `FileHeaders.FileHeader.Deallocate` | nachOS/code/filesys/filehdr.cc:61-68 | the ASSERT never fires, and exactly the header's sectors become clear |
| `FileHeaders.FileHeader.FetchFrom` | nachOS/code/filesys/filehdr.cc:77-81 | the header becomes what the sector spells |
| `FileHeaders.FileHeader.WriteBack` | nachOS/code/filesys/filehdr.cc:90-94 | the sector becomes the image of the header |
| `OpenFiles.OpenFile.constructor` | nachOS/code/filesys/openfile.cc:27-32 | the header is fetched and the seek position is 0 |
| `OpenFiles.OpenFile.ReadAt` | nachOS/code/filesys/openfile.cc:113-141 | for any length and position >= 0 whose end, unless the request is turned away, is an int, aligned or not: exactly the slice of the flat file, clipped to its length, arrives, and nothing else in the destination changes |
| `OpenFiles.ClipsExactlyIfEndFits` | nachOS/code/filesys/openfile.cc:120-124 | the clipping, with the sum wrapping around as an int, is right exactly when the request is turned away or its end is an int |
| `OpenFiles.ClippingCanFail` | nachOS/code/filesys/openfile.cc:120-124 | a request for 2^31 - 1 bytes at position 1 of a two-byte file, which is not clipped |
| `OpenFiles.ClipIsLargest` | nachOS/code/filesys/openfile.cc:120-124 | the clipped request is the largest part of it that lies within the file |
| `OpenFiles.OpenFile.LoadBlocks` | nachOS/code/filesys/openfile.cc:133-135 | whole blocks come in, each to its place in the buffer |
| `OpenFiles.OpenFile.WriteAt` | nachOS/code/filesys/openfile.cc:143-183 | for any length and position >= 0 whose end, unless the request is turned away, is an int, aligned or not: the flat file changes in exactly [position, position + n), n clipped to the length, and no sector outside the file changes |
| `OpenFiles.OpenFile.LoadEdges` | nachOS/code/filesys/openfile.cc:164-172 | the edge blocks that a request covers only in part are read in, so the rest of the buffer is the file's own |
| `OpenFiles.OpenFile.WriteBlocks` | nachOS/code/filesys/openfile.cc:177-180 | whole blocks go back, and what they spell is the wanted file |
| `OpenFiles.FileAfterWrite` | nachOS/code/filesys/openfile.cc:177-180 | when block writes over distinct sectors are done, the flat file reads as wanted, bytes past its end notwithstanding |
| `OpenFiles.OpenFile.Read` | nachOS/code/filesys/openfile.cc:71-77 | ReadAt at the seek position, which moves on by what was read |
| `OpenFiles.OpenFile.Write` | nachOS/code/filesys/openfile.cc:79-85 | WriteAt at the seek position, which moves on by what was written |
| `Directories.SameNameIsSameKey` | nachOS/code/filesys/directory.cc:93-95 | strncmp over 9 characters finds two names equal exactly when they have the same key |
| `Directories.SameKeyIff` | nachOS/code/filesys/directory.cc:93-95 | two names have the same key exactly when their first nine characters, NULs behind their ends included, agree |
| `Directories.ShortNamesAreKeys` | nachOS/code/filesys/directory.h:22 | names of at most nine characters have the same key only if they are equal |
| `Directories.Directory.AddThenFind` | nachOS/code/filesys/directory.cc:108-143 | after Add a name is found at its sector, and every name that differs from it within nine characters is found where it was |
| `Directories.CopiedNameKey` | nachOS/code/filesys/directory.cc:135-141 | a name that strncpy has put in an entry is found again under the name's key |
| `Directories.AddExtendsMap` | nachOS/code/filesys/directory.cc:129-143 | Add extends the map from names to sectors by one name and leaves every other name as it was |
| `Directories.RemoveShrinksMap` | nachOS/code/filesys/directory.cc:153-162 | Remove takes one name out of that map and leaves every other as it was |
| `Directories.TableRoundTrip` | nachOS/code/filesys/directory.cc:63-80 | a directory written to its file and fetched again is the same directory |
| `Directories.EntryLayout` | nachOS/code/filesys/directory.h:32-39 | byte by byte, where inUse, sector and name of an entry are in the file |
| `Directories.Directory.FindIndex` | nachOS/code/filesys/directory.cc:90-97 | the first entry in use with the name, or -1 when there is none |
| `Directories.Directory.Find` | nachOS/code/filesys/directory.cc:108-116 | the sector the name maps to, or -1 |
| `Directories.Directory.Add` | nachOS/code/filesys/directory.cc:129-143 | succeeds exactly when the name is new and an entry is free; otherwise nothing changes |
| `Directories.Directory.Remove` | nachOS/code/filesys/directory.cc:153-162 | succeeds exactly when the name is there, and frees its entry only |
| `Directories.Directory.FetchFrom` | nachOS/code/filesys/directory.cc:63-67 | the table becomes what the file spells |
| `Directories.Directory.WriteBack` | nachOS/code/filesys/directory.cc:76-80 | the file comes to spell the table |
| `Volumes.EntryIsolated` | nachOS/code/filesys/filesys.cc:80-143 | in a sound volume, a file's header sector and data sectors are distinct, in range, marked, and not the system's |
| `Volumes.EntriesDisjoint` | nachOS/code/filesys/filesys.cc:174-215 | in a sound volume, two files share no sector |
| `Volumes.RootsIsolated` | nachOS/code/filesys/filesys.cc:80-143 | in a sound volume, the two root files share no sector with each other or with the header sectors, and a clear bit means an unowned sector |
| `FsLaws.NamedFileIsSound` | nachOS/code/filesys/filesys.cc:227-241 | the header behind a name is fit to be opened and written through, and all its sectors are marked |
| `FsLaws.CanCreateIff` | nachOS/code/filesys/filesys.cc:187-203 | a file can be created exactly when no entry in use has its name, an entry is free, and the clear sectors hold a header and its blocks |
| `FsLaws.PicksUnowned` | nachOS/code/filesys/filesys.cc:193-200 | what first fit hands out belongs to no file |
| `FsLaws.OwnedAfter` | nachOS/code/filesys/filesys.cc:174-215 | a directory update changes the owned sectors by exactly what the entry gains or loses |
| `FsLaws.CreateKeepsSound` | nachOS/code/filesys/filesys.cc:204-207 | after a successful Create the marked sectors are again exactly the disjoint union of all owned ones, names stay distinct, and every other name keeps its header and bytes |
| `FsLaws.RemoveKeepsSound` | nachOS/code/filesys/filesys.cc:278-283 | the same after Remove |
| `FsLaws.WriteKeepsSound` | nachOS/code/filesys/openfile.cc:143-183 | writing inside one file's data leaves the free map, the directory, all headers and every other file's bytes alone |
| `FsLaws.WriteKeepsHeaders` | nachOS/code/filesys/openfile.cc:143-183 | a write through any open file that spares the headers of the files leaves map, directory and headers alone, and the volume sound |
| `FsLaws.NamedFileHolds` | nachOS/code/filesys/filesys.cc:227-241 | the header that a name maps to spares all headers and the system's sectors |
| `FsLaws.CreatedFits` | nachOS/code/filesys/filehdr.cc:45-51 | a file that was created got all the sectors it needs |
| `FsLaws.RemoveUndoesCreate` | nachOS/code/filesys/filesys.cc:257-288 | Create then Remove restores the exact free map and the meaning of every name |
| `FsLaws.MarkedPlusClear` | nachOS/code/userprog/bitmap.cc:110-119 | owned and clear sectors add up to the disk |
| `FsLaws.SpaceIsConserved` | nachOS/code/filesys/filehdr.h:20 | in every sound volume at most 1022 sectors are clear, so no header table can be overrun |
| `FileSystems.FetchMap` | nachOS/code/filesys/filesys.cc:192 | the bitmap becomes what its file spells |
| `FileSystems.WriteMap` | nachOS/code/filesys/filesys.cc:207 | the bitmap's file comes to spell it, and nothing else changes |
| `FileSystems.CreateWrites` | nachOS/code/filesys/filesys.cc:204-207 | the three writes of Create amount to one new file and nothing else |
| `FileSystems.RemoveWrites` | nachOS/code/filesys/filesys.cc:278-283 | the two writes of Remove amount to one file less and nothing else |
| `FileSystems.FormattedIsSound` | nachOS/code/filesys/filesys.cc:83-126 | a formatted disk is sound |
| `FileSystems.FileSystem.Format` | nachOS/code/filesys/filesys.cc:80-136 | whatever the disk held, it becomes a sound volume with no names and exactly sectors 0 to 3 in use; neither ASSERT fires |
| `FileSystems.FileSystem.AllocateRoots` | nachOS/code/filesys/filesys.cc:93-100 | the two root files get sectors 2 and 3 |
| `FileSystems.FileSystem.Mount` | nachOS/code/filesys/filesys.cc:137-142 | a sound disk is opened as it is |
| `FileSystems.FileSystem.Create` | nachOS/code/filesys/filesys.cc:174-215 | succeeds exactly when the name is new and a directory slot, a header sector and the data sectors are available; otherwise no sector of the disk changes; the volume stays sound |
| `FileSystems.FileSystem.Reserve` | nachOS/code/filesys/filesys.cc:193-200 | the in-memory half of Create: fails exactly when one of the three resources is lacking |
| `FileSystems.FileSystem.Open` | nachOS/code/filesys/filesys.cc:227-241 | null exactly when the name is not there; otherwise a fresh open file on the name's header at position 0 |
| `FileSystems.FileSystem.Remove` | nachOS/code/filesys/filesys.cc:257-288 | succeeds exactly when the name is there; otherwise nothing changes; the volume stays sound |
| `FileSystems.FileSystem.ReleaseSectors` | nachOS/code/filesys/filesys.cc:278-279 | data sectors and header sector, and no others, become clear |
| `FsTests.Copy` | nachOS/code/filesys/fstest.cc:31-70 | the new file's contents are the source; when it does not fit, the disk is unchanged; other files are untouched |
| `FsTests.CopyChunks` | nachOS/code/filesys/fstest.cc:62-64 | chunks of at most ten bytes through the seek position write exactly the source |
| `FsTests.Print` | nachOS/code/filesys/fstest.cc:77-97 | prints exactly the contents of the named file, or nothing |
| `FsTests.CopyThenPrint` | nachOS/code/filesys/fstest.cc:31-97 | Copy then Print is the identity on every source that fits |
| `HeldFiles.HarmlessIff` | nachOS/code/filesys/openfile.cc:27-32 | an open file keeps its own copy of a header: whatever is written through it leaves the volume sound exactly when no file in use has its header in the blocks listed there |
| `HeldFiles.HeaderOverwritten` | nachOS/code/filesys/openfile.cc:177-180 | a block of bytes that, written over a file's header, leaves a volume that is not sound |
| `HeldFiles.IsolatedIff` | nachOS/code/filesys/openfile.cc:177-180 | whatever is written through an open file leaves the volume sound and another file's bytes alone exactly when its blocks hold no file's header and none of that file's blocks |
| `HeldFiles.NameIsolatedIff` | nachOS/code/filesys/openfile.cc:177-180 | the same for what a name means: its header, its place and its bytes |
| `HeldFiles.HarmlessAfterReuse` | nachOS/code/filesys/filesys.cc:257-288 | on any sound volume, a file held open while its name is removed and another is created leaves the volume sound exactly when the new header is not among the sectors given up |
| `HeldFiles.OneReuseIsHarmless` | nachOS/code/filesys/filesys.cc:174-215 | for a file that Create made it never is: after one Remove and one Create no write through it harms the volume |
| `HeldFiles.CreatedInOrder` | nachOS/code/userprog/bitmap.cc:94-103 | first fit puts a new file's header on the first clear sector and all its blocks behind it |
| `HeldFiles.NextFileIsSafeIff` | nachOS/code/filesys/filesys.cc:174-288 | after one Remove and one Create the new file keeps its bytes, whatever is written through the one held open, exactly when one of the two is empty |
| `HeldFiles.OpenFileSharesTheNext` | nachOS/code/filesys/filesys.cc:257-288 | when both have the same size the new file gets the very sectors of the old one, and its contents are what the file held open reads |
| `HeldFiles.TwoReusesHarm` | nachOS/code/filesys/filesys.cc:174-288 | on any volume: after Remove, a Create of an empty file and another Create, the last file's header lies in the first block of the file held open |
| `HeldFiles.FileLost` | nachOS/code/filesys/filesys.cc:80-288 | that run from Format on, ending in a write of one block after which the volume is not sound |
| `Multiply.AddPair` | nachOS/code/machine/mipssim.cc:664-668 | the carry test of the two-word addition is right |
| `Multiply.DoublePair` | nachOS/code/machine/mipssim.cc:672-676 | the two-word shift doubles modulo 2^64 |
| `Multiply.MultiplyMagnitudes` | nachOS/code/machine/mipssim.cc:657-678 | shift-and-add with the early break yields the full 64-bit unsigned product, also when `a` is shifted arithmetically |
| `Multiply.NegatePair` | nachOS/code/machine/mipssim.cc:682-688 | complement and increment negate the two-word product |
| `Multiply.Mult` | nachOS/code/machine/mipssim.cc:635-692 | for every pair of inputs, -2^31 included: hi and lo are the two words of the unsigned, or two's-complement signed, product |
| `Isa.Decoded` | nachOS/code/machine/mipssim.cc:589-626 | every word decodes to an operation and operands in range |
| `Isa.DecodeImmediate` | nachOS/code/machine/mipssim.cc:599-603 | the immediate is sign-extended |
| `Encoding.DecodeRegister` | nachOS/code/machine/mipssim.cc:589-626 | a word with the function code of a register-format operation decodes to that operation, and its rs, rt, rd and shift fields to those operands |
| `Encoding.DecodeCondition` | nachOS/code/machine/mipssim.cc:611-625 | the same for the branches that opcode 1 and the rt field select |
| `Encoding.DecodeImmediateWord` | nachOS/code/machine/mipssim.cc:599-603 | the same for the immediate format, the immediate sign-extended |
| `Encoding.DecodeJump` | nachOS/code/machine/mipssim.cc:606-608 | the same for J and JAL |
| `Encoding.OnlyEncodingsDecode` | nachOS/code/machine/mipssim.cc:589-626 | no other word is taken for one of these operations |
| `Isa.TrapIsRestartable` | nachOS/code/machine/machine.cc:100-111 | a trap keeps PC, NextPC, hi and lo, and every general register but the one the pending load lands in; a second trap changes no general register |
| `Isa.OnlyDestination` | nachOS/code/machine/mipssim.cc:123-553 | an instruction writes its destination and no other register |
| `Isa.BadAddressInert` | nachOS/code/machine/mipssim.cc:123-553 | no instruction looks at the recorded bad address |
| `Isa.LoadDelaySlot` | nachOS/code/machine/mipssim.cc:575-582 | the instruction after a load does not see the loaded value, and the one after that does, whatever the first one wrote |
| `Isa.BranchDelaySlot` | nachOS/code/machine/mipssim.cc:557-565 | what an instruction decides takes effect one instruction later |
| `Isa.OrOnlyCopies` | nachOS/code/machine/mipssim.cc:375-377 | OR delivers rs; that is the union of the operands exactly when rt has no bit that rs lacks |
| `Isa.OrMissesABit` | nachOS/code/machine/mipssim.cc:375-377 | OR of registers holding 1 and 2 leaves 1, where the union is 3 |
| `Isa.ShiftIsArithmetic` | nachOS/code/machine/mipssim.cc:445-455 | an SRL or SRLV instruction delivers the logical shift exactly for words below 2^31, or when it shifts by 0 |
| `Isa.SrlBringsInTheSign` | nachOS/code/machine/mipssim.cc:445-449 | SRL by 1 of a register holding 0x80000000 leaves 0xc0000000, not 0x40000000 |
| `Isa.BitwiseResult` | nachOS/code/machine/mipssim.cc:153-544 | each bit of what AND, ANDI, NOR, ORI, XOR and XORI deliver is that function of the corresponding bits of the operands, an immediate being zero-extended |
| `Isa.ShiftResult` | nachOS/code/machine/mipssim.cc:395-455 | each bit of what the six shifts deliver comes from n places below, or n above with copies of the sign |
| `Bits.AndBits` | nachOS/code/machine/mipssim.cc:153-160 | bit k of a bitwise and is the and of bits k |
| `Bits.OrBits` | nachOS/code/machine/mipssim.cc:371-382 | the same for or |
| `Bits.XorBits` | nachOS/code/machine/mipssim.cc:538-545 | the same for exclusive or |
| `Bits.NotBits` | nachOS/code/machine/mipssim.cc:371-374 | and for the complement |
| `Bits.SameBits` | nachOS/code/machine/mipssim.cc:371-382 | a word is determined by its bits |
| `Bits.ShiftLeftBits` | nachOS/code/machine/mipssim.cc:395-402 | bit k of a left shift is bit k - n, and low bits are 0 |
| `Bits.ShiftRightSignedBits` | nachOS/code/machine/mipssim.cc:436-443 | bit k of C's right shift of an int is bit k + n, and the sign bit beyond the top |
| `Bits.ShiftRightLogicalBits` | nachOS/code/machine/mipssim.cc:445-455 | bit k of a logical right shift is bit k + n, and 0 beyond the top |
| `Manual.SumsDeliver` | nachOS/code/machine/mipssim.cc:145-469 | sums, differences, comparisons and LUI, as integers modulo 2^32, in which register, and that no other changes |
| `Manual.CheckedDeliver` | nachOS/code/machine/mipssim.cc:125-549 | the additions and the subtraction that trap do so exactly when the result is not an int; what SYSCALL and undefined words raise |
| `Manual.ProductsDeliver` | nachOS/code/machine/mipssim.cc:361-370 | hi and lo are the two words of the product of ints or of words |
| `Manual.QuotientsDeliver` | nachOS/code/machine/mipssim.cc:195-214 | lo is the truncated quotient and hi the remainder with the sign of the dividend; zero divisors clear both |
| `Manual.PairMoves` | nachOS/code/machine/mipssim.cc:345-360 | the moves from and to hi and lo |
| `Manual.BranchesGo` | nachOS/code/machine/mipssim.cc:161-194 | when each branch is taken, on signed integers, and where it goes |
| `Manual.LinkingBranchesGo` | nachOS/code/machine/mipssim.cc:166-189 | the same for the branches that link, the link being written before the condition is read |
| `Manual.JumpsGo` | nachOS/code/machine/mipssim.cc:219-224 | J and JAL keep the top four bits of the address behind the delay slot, and JAL links to it |
| `Manual.RegisterJumpsGo` | nachOS/code/machine/mipssim.cc:225-229 | JR and JALR |
| `Accesses.ComputingSteps` | nachOS/code/machine/mipssim.cc:555-582 | after a step that computes, the registers hold what was computed, but for the one in which a pending load lands; the counters advance |
| `Accesses.LoadsDeliver` | nachOS/code/machine/mipssim.cc:231-279 | LB, LBU, LH, LHU and LW from the word in memory on: the bytes of virtual memory at rs + immediate, sign-extended or not, become the pending load of rt; unaligned and unreadable addresses trap |
| `Accesses.StoresDeliver` | nachOS/code/machine/mipssim.cc:383-476 | SB, SH and SW: exactly 1, 2 or 4 bytes of virtual memory at rs + immediate change, to the low bytes of rt; or a trap |
| `Accesses.UnalignedLoads` | nachOS/code/machine/mipssim.cc:280-343 | LWL and LWR on aligned addresses, and that they stop the simulator on others |
| `Accesses.UnalignedStores` | nachOS/code/machine/mipssim.cc:477-532 | SWL and SWR, likewise |
| `Machines.StepKeepsRegs` | nachOS/code/machine/mipssim.cc:93-582 | after every step register 0 is zero and the pending load names a general register |
| `Machines.TrapsArePrecise` | nachOS/code/machine/mipssim.cc:93-582 | for every instruction that traps: memory, PC and NextPC are as before, and registers too but for the pending load and BadVAddr |
| `Machines.RetryAfterTrap` | nachOS/code/machine/machine.cc:100-111 | running a trapped instruction again does exactly what it would have done with the pending load landed |
| `Machines.CompletionAdvances` | nachOS/code/machine/mipssim.cc:560-564 | a completed instruction hands over to NextPC |
| `Machines.PerformedIgnoresBits` | nachOS/code/machine/translate.cc:246-248 | use and dirty bits have no influence on what an instruction does |
| `Machines.Machine.constructor` | nachOS/code/machine/machine.cc:55-76 | registers and memory are zero; with a TLB the machine is ready and every access misses, without one it waits for a page table |
| `Machines.Machine.RestoreState` | nachOS/code/userprog/addrspace.cc:298-302 | the machine is ready to run with the page table of an address space |
| `Machines.After` | nachOS/code/machine/mipssim.cc:30-45 | after any number of turns of Run, from registers that are in order, for any program, table and trap handler that keeps them in order: register 0 is zero and the pending load names a general register |
| `Machines.Machine.Run` | nachOS/code/machine/mipssim.cc:30-45 | the loop computes those turns, unless an instruction stops the machine, which ends it |
| `Machines.Machine.DelayedLoad` | nachOS/code/machine/mipssim.cc:575-582 | commits the pending load, records the next, and zeroes register 0 |
| `Machines.Machine.RaiseException` | nachOS/code/machine/machine.cc:100-111 | up to the kernel's handler: the bad address recorded and the pending load committed |
| `Machines.Machine.Translate` | nachOS/code/machine/translate.cc:184-253 | each fault in its case, in the order of the tests; otherwise the physical address, with use and dirty bits set on the entry used and nothing else changed |
| `Machines.Machine.ReadMem` | nachOS/code/machine/translate.cc:87-122 | the little-endian value, or a trap |
| `Machines.Machine.WriteMem` | nachOS/code/machine/translate.cc:136-167 | the low bytes of the value stored, or a trap and memory unchanged |
| `Machines.Machine.StoreThenLoad` | nachOS/code/machine/translate.cc:87-167 | a load after a store through the same address and size gives the low bytes stored; one that does not overlap gives, with distinct frames, what it gave before |
| `Machines.Machine.ExecuteChecked` | nachOS/code/machine/mipssim.cc:125-549 | the sign-bit tests for overflow hold exactly when the signed result does not fit 32 bits |
| `Machines.Machine.ExecuteHiLo` | nachOS/code/machine/mipssim.cc:195-369 | multiplication, division and the hi/lo moves do as the step function says |
| `Machines.Machine.ExecuteTransfer` | nachOS/code/machine/mipssim.cc:161-229 | branches and jumps do as the step function says, link register first |
| `Machines.Machine.ExecuteLoad` | nachOS/code/machine/mipssim.cc:231-343 | loads record the widened value as the pending load, or trap |
| `Machines.Machine.ExecuteStore` | nachOS/code/machine/mipssim.cc:383-532 | stores change exactly the addressed bytes, or trap |
| `Machines.Machine.OneInstruction` | nachOS/code/machine/mipssim.cc:93-565 | one fetch-decode-execute step refines the step function, for every word in memory |
| `Translation.AccessInBounds` | nachOS/code/machine/translate.cc:249-250 | a successful access lies within memory and within one frame |
| `Translation.PageTableFaults` | nachOS/code/machine/translate.cc:184-253 | which exception each kind of access raises, and that all others go through, to which address |
| `Translation.TlbFaults` | nachOS/code/machine/translate.cc:209-253 | the same with a TLB |
| `Translation.WriteIsFlat` | nachOS/code/machine/translate.cc:136-167 | with distinct frames, a write changes exactly the addressed bytes of the virtual byte array |
| `Translation.ReadIsFlat` | nachOS/code/machine/translate.cc:87-122 | a read delivers the addressed bytes of that array, least significant first |
| `Translation.ReadAfterWrite` | nachOS/code/machine/translate.cc:87-167 | a read translated at the virtual address of a write of the same size returns the low bytes written |
| `Translation.WritesElsewhere` | nachOS/code/machine/translate.cc:87-167 | with distinct frames, a write at virtual addresses that a read does not overlap leaves what is read as it was |
| `Translation.TlbAgrees` | nachOS/code/machine/translate.cc:209-232 | a TLB copied from the page table agrees with it on every hit |
| `Translation.TranslatedIgnoresBits` | nachOS/code/machine/translate.cc:246-248 | use and dirty bits do not affect translation |
| `Lists.InsertKeepsSorted` | nachOS/code/threads/list.h:229-254 | SortedInsert keeps a sorted list sorted and puts the new item after all equal keys |
| `Lists.SplicedBag` | nachOS/code/threads/list.h:229-254 | an insertion adds the item and loses none |
| `Lists.List.Append` | nachOS/code/threads/list.h:125-138 | the item goes to the end of the sequence; the chain from first to last stays linked, acyclic and null-terminated |
| `Lists.List.Prepend` | nachOS/code/threads/list.h:152-165 | the item goes to the front |
| `Lists.List.SortedInsert` | nachOS/code/threads/list.h:229-254 | the item goes before the first larger key |
| `Lists.List.SortedRemove` | nachOS/code/threads/list.h:269-289 | the head of the sequence is taken with its key; nothing from an empty list |
| `Interrupts.DuePartIs` | nachOS/code/machine/interrupt.cc:290-336 | in a sorted queue the due interrupts are exactly a prefix |
| `Interrupts.DuePartKept` | nachOS/code/machine/interrupt.cc:264-275 | scheduling strictly for later makes nothing due |
| `Interrupts.HistoryScheduled` | nachOS/code/machine/interrupt.cc:264-275 | scheduling keeps the history of the run: sorted, nothing lost, nothing early |
| `Interrupts.HistoryFired` | nachOS/code/machine/interrupt.cc:320-335 | firing a due head keeps it |
| `Interrupts.HistoryPutBack` | nachOS/code/machine/interrupt.cc:309-319 | taking the head out and putting it back keeps it |
| `Interrupts.PutBackGoesBehindEquals` | nachOS/code/machine/interrupt.cc:309-319 | a head put back goes behind everything due when it is; the queue keeps its order exactly when all of those are the same as the head |
| `Interrupts.SecondFiresFirst` | nachOS/code/machine/interrupt.cc:309-311 | a run from power-on in which, of two interrupts scheduled for the same time, the second fires first, because a tick passed before they were due |
| `Interrupts.Interrupt.constructor` | nachOS/code/machine/interrupt.cc:60-67 | interrupts off, nothing pending |
| `Interrupts.Interrupt.Schedule` | nachOS/code/machine/interrupt.cc:264-275 | the interrupt is queued by its due time; nothing becomes due |
| `Interrupts.Interrupt.CallHandler` | nachOS/code/machine/interrupt.cc:327-331 | all that the handler asks for is scheduled, and nothing else; what is due stays as it was |
| `Interrupts.Interrupt.CheckIfDue` | nachOS/code/machine/interrupt.cc:290-336 | fires exactly when the head is due after the clock has advanced and is not an idle machine's lone timer; what was fired followed by what is due is the same sequence before and after; otherwise the head is put back; ticks are accounted for; every fired interrupt's handler is called once |
| `Interrupts.Interrupt.FireAllDue` | nachOS/code/machine/interrupt.cc:169-170 | the firing loop terminates and leaves nothing due, but for the timer of an idle machine, which is left due exactly when it is the last of a queue that is all due and no handler before it asks for anything |
| `Interrupts.Interrupt.OneTick` | nachOS/code/machine/interrupt.cc:150-179 | time moves by one tick of the right kind; exactly the interrupts due by then fire, in order and once each; only future ones remain |
| `Interrupts.Interrupt.Idle` | nachOS/code/machine/interrupt.cc:210-234 | halts exactly when nothing or a lone timer is pending; otherwise time jumps to the first interrupt, the time passed is idle time, and everything due fires -- unless it is all that is pending, a timer's interrupt comes last and no handler before it asks for anything, which is exactly when that one is left pending though due |
| `Interrupts.TimerStaysOn` | nachOS/code/machine/interrupt.cc:312-319 | firing a head that is not a lone timer does not change whether a timer will be left at the end |
| `Interrupts.TimerIsLeftDue` | nachOS/code/machine/interrupt.cc:210-234 | a run from power-on in which Idle leaves a timer interrupt pending although it is due |
| `Interrupts.Interrupt.SetLevel` | nachOS/code/machine/interrupt.cc:114-127 | enabling interrupts that were off costs one tick, of the kind the status says, and fires what is due; anything else leaves time and queue alone |
| `Threads.StepKeepsInvariant` | nachOS/code/threads/synch.cc:64-97 | every step of every thread and handler keeps the places of threads and the accounts of semaphores |
| `Threads.RunKeepsInvariant` | nachOS/code/threads/scheduler.cc:53-135 | so does every run |
| `Threads.ValueIsCounted` | nachOS/code/threads/synch.cc:64-97 | over any run: the value of a semaphore is what it began with, plus one for every V step and minus one for every P that returned, counted from the steps |
| `Threads.NoLostWakeup` | nachOS/code/threads/synch.cc:64-97 | in any interleaving from boot: 0 <= value == initial value + Vs - returned Ps, counted from the steps, and while a thread is queued, value <= the number of threads made ready that have not looked again |
| `Threads.SignalIsRemembered` | nachOS/code/threads/synch.cc:86-97 | while more Vs were than Ps have returned, the next P returns at once, whether or not anybody was waiting at the Vs |
| `Threads.CallsReturn` | nachOS/code/threads/synch.cc:64-76 | over any run: a thread comes out of P only by taking a unit, once for each call |
| `Threads.WokenInTurn` | nachOS/code/threads/synch.cc:68-92 | a thread that goes to sleep in P is made ready by exactly the V that follows those for the threads that slept there before it |
| `Threads.WaiterMovesUp` | nachOS/code/threads/synch.cc:86-97 | a waiting thread moves up by one with each V on its semaphore, whatever else happens |
| `Threads.QuietMeansNothingToTake` | nachOS/code/threads/thread.cc:214-230 | when nothing is running or ready, every thread still in P is queued on a semaphore whose value is 0 |
| `Threads.OnePlace` | nachOS/code/threads/thread.cc:87-230 | in every run a forked thread is in exactly one place: running, once on the ready list, once on one semaphore queue, or finished |
| `Threads.ReadyMovesUp` | nachOS/code/threads/scheduler.cc:53-74 | a ready thread moves up by one with each dispatch, whatever else happens |
| `Threads.DispatchedInTurn` | nachOS/code/threads/scheduler.cc:53-106 | the thread at position n of the ready list is the one that runs after exactly n + 1 dispatches |
| `Threads.TurnComes` | nachOS/code/threads/thread.cc:87-193 | a thread that is forked, woken, or yields runs next at exactly the dispatch that follows those of all threads that were ready before it |
| `Threads.FinishedForGood` | nachOS/code/threads/thread.cc:146-157 | a thread that calls Finish never runs again in any later run, and is on no list |
| `Threads.ThreadsAreCounted` | nachOS/code/threads/thread.cc:35-48 | threads are neither lost nor made up |
| `Threads.GetsItsUnitIff` | nachOS/code/threads/synch.cc:64-97 | over all runs: a thread that looks at the value, in a new P or woken, gets a unit exactly when, since any earlier point of the run, fewer Ps returned than the value was and Vs were since |
| `Threads.WokenThreadMaySleepAgain` | nachOS/code/threads/synch.cc:92-95 | a run in which a woken thread finds the value taken again and sleeps, and everything is as before: V does not hand over its unit |
| `Threads.SleepingIsReached` | nachOS/code/threads/synch.cc:64-76 | the state that run starts from is reached from boot |
| `Threads.Kernel.ReadyToRun` | nachOS/code/threads/scheduler.cc:53-60 | status READY and the end of the ready list |
| `Threads.Kernel.FindNextToRun` | nachOS/code/threads/scheduler.cc:70-74 | the head of the ready list, removed, or nothing |
| `Threads.Kernel.Fork` | nachOS/code/threads/thread.cc:87-105 | refines the Fork step |
| `Threads.Kernel.Yield` | nachOS/code/threads/thread.cc:177-193 | refines the Yield step: nothing when no other thread is ready |
| `Threads.Kernel.Dispatch` | nachOS/code/threads/thread.cc:224-229 | refines the Dispatch step, the rest of Sleep |
| `Threads.Kernel.Finish` | nachOS/code/threads/thread.cc:146-157 | refines the Finish step |
| `Threads.Kernel.P` | nachOS/code/threads/synch.cc:64-76 | refines P up to its end or its Sleep |
| `Threads.Kernel.Recheck` | nachOS/code/threads/synch.cc:68-72 | refines the loop of P after Sleep has returned |
| `Threads.Kernel.V` | nachOS/code/threads/synch.cc:86-97 | refines V |
| `Frames.TakeKeepsExact` | nachOS/code/userprog/addrspace.cc:143-151 | with fewer than 32 frames in use, Find gives an unmapped frame below 32, and counting it keeps counts and bits exact |
| `Frames.DropKeepsExact` | nachOS/code/userprog/addrspace.cc:232-240 | uncounting one user, and clearing the bit at zero, keeps counts and bits exact |
| `Frames.Memory.constructor` | nachOS/code/threads/system.cc:40-41 | every frame is free and every count zero |
| `Frames.InUseIffMapped` | nachOS/code/userprog/addrspace.cc:142-151 | a frame's bit is set exactly when an entry of some live page table names the frame |
| `Frames.PagesAre` | nachOS/code/userprog/addrspace.cc:131-136 | just enough pages for the segments and 1024 bytes of stack, and the copyable ones are those on which code or initialised data lie |
| `Frames.AddrSpace.Load` | nachOS/code/userprog/addrspace.cc:142-151 | just enough pages for all segments and the stack; every page is writable and gets a frame of its own that no live space maps; counts stay equal to the live page-table entries per frame, and bits to positive counts |
| `Frames.AddrSpace.Fork` | nachOS/code/userprog/addrspace.cc:183-205 | page i is the parent's, entry for entry, exactly when i * 4096 < code + initialised data; every other page gets a frame that belongs to no space that was live; counts and bits stay exact |
| `Frames.AddrSpace.CopyShared` | nachOS/code/userprog/addrspace.cc:185-194 | sharing counts every shared frame once more |
| `Frames.AddrSpace.RegisterNew` | nachOS/code/userprog/addrspace.cc:195-205 | the fresh pages get the first-fit frames |
| `Frames.AddrSpace.Destroy` | nachOS/code/userprog/addrspace.cc:229-243 | a frame is freed exactly when its last user goes; the others' counts stay exact |
| `Frames.AllDestroyedAllFree` | nachOS/code/userprog/addrspace.cc:229-243 | with no space left, every count is zero and every frame free |
| `Frames.DistinctFramesOfTable` | nachOS/code/userprog/addrspace.cc:142-151 | a loaded or forked space satisfies the condition under which its memory is a flat byte array |
| `Frames.PicksBelow` | nachOS/code/userprog/bitmap.cc:94-103 | n picks stay below frame m, beyond which nothing is in use, exactly when n and the frames in use come to at most m |
| `Frames.CountsExistIff` | nachOS/code/threads/system.cc:41 | loading n pages indexes only the 32 counts exactly when n and the frames in use come to at most 32 |
| `Frames.AssertedSizeIsNotEnough` | nachOS/code/userprog/addrspace.cc:138 | an executable that passes the constructor's assertion and still indexes past the counts |
| `Frames.StoreIsHiddenIff` | nachOS/code/machine/translate.cc:136-167 | what is stored through one table shows in no byte of another, whatever is stored, exactly when no readable page of the other has the frame it goes to |
| `Frames.CountedOnceIsOwn` | nachOS/code/userprog/addrspace.cc:229-243 | a frame counted once belongs to one live space only |
| `Frames.SpacesAreIsolated` | nachOS/code/userprog/addrspace.cc:142-205 | a store of one live space to a frame counted once changes no byte that another live space sees |
| `DiskTiming.FirstPassIs` | nachOS/code/machine/disk.cc:179-253 | rounding up to a sector boundary and turning by ModuloDiff sectors reaches the first time at which the sector passes |
| `DiskTiming.PassesIff` | nachOS/code/machine/disk.cc:179-253 | a sector starts to pass at 500 ticks for each sector before it on its track, and again in each turn of 16000 |
| `DiskTiming.SeekIs` | nachOS/code/machine/disk.cc:179-187 | no seek time on the same track, the same time both ways, and 500 ticks for each track on the way |
| `DiskTiming.BufferedIff` | nachOS/code/machine/disk.cc:241-243 | a request is served from the track buffer exactly when it reads, on the present track, a sector that went by since the buffer was begun |
| `DiskTiming.PassedBetweenIff` | nachOS/code/machine/disk.cc:241-243 | the track-buffer test holds exactly when the whole sector has passed under the head between the two times |
| `DiskTiming.Disk.TimeToSeek` | nachOS/code/machine/disk.cc:179-194 | the seek time, and the wait until the next sector boundary after it |
| `DiskTiming.Disk.ModuloDiff` | nachOS/code/machine/disk.cc:202-209 | the turn, between 0 and 31 sectors, from one sector to another |
| `DiskTiming.Disk.ComputeLatency` | nachOS/code/machine/disk.cc:232-253 | a read of a sector that has gone by since the buffer was begun takes one transfer; anything else ends one slot after the sector's first pass at or after now + seek |
| `DiskTiming.Disk.UpdateLast` | nachOS/code/machine/disk.cc:261-271 | after a seek the buffer begins at the next sector boundary; bufferInit stays a multiple of the rotation time |
| `DiskTiming.Disk.Request` | nachOS/code/machine/disk.cc:115-153 | the interrupt is scheduled strictly in the future and not before the buffer was begun |
| `Balancer.AtoiToString` | src/WebServidor.cpp:145 | atoi reads back what to_string prints, for every integer |
| `Balancer.DigitsValueIs` | src/WebServidor.cpp:145 | digits count ten times as much with every digit behind them |
| `Balancer.AtoiReads` | src/Balanceador.cpp:524 | what atoi makes of white space, a sign, digits and the rest |
| `Balancer.MessageRoundTrip` | src/WebServidor.cpp:138-145 | parsing a printed message returns the host and port, for every slash-free host and every port |
| `Balancer.MessageLooks` | src/WebServidor.cpp:138-145 | two printed messages, character by character |
| `Balancer.PrintedMessageArrives` | src/Balanceador.cpp:307-327 | a printed message shorter than the buffer is told apart by kind and read as its comparator, whatever an earlier datagram left in the buffer |
| `Balancer.ComparatorsDiffer` | src/Balanceador.cpp:562-572 | two servers have the same comparator exactly when host and port are the same |
| `Balancer.ConnectKeepsLast` | src/Balanceador.cpp:511-535 | registering keeps last-message-wins |
| `Balancer.DisconnectKeepsLast` | src/Balanceador.cpp:540-557 | removing keeps last-message-wins |
| `Balancer.ConnectedIff` | src/Balanceador.cpp:307-327 | a server counts as connected exactly when some message connects it and none about it came since |
| `Balancer.Balanceador.BuscarServidor` | src/Balanceador.cpp:562-572 | the position of the server, or -1 exactly when it is not registered |
| `Balancer.Balanceador.AgregarServidor` | src/Balanceador.cpp:511-535 | a new server is appended with the port it gave, and the host it gave copied over the front of an address field that keeps its old characters behind it; a known one is not added twice |
| `Balancer.HostReadBackIff` | src/Balanceador.cpp:523 | the host is read back from the field exactly when it is shorter than the field and the character behind it was a terminator before |
| `Balancer.HostNotReadBack` | src/Balanceador.cpp:523 | a host and a field for which another address is read |
| `Balancer.Balanceador.Direccion` | src/Balanceador.cpp:232 | the address a client is sent to is the host that the server gave exactly under that condition |
| `Balancer.Balanceador.EliminarServidor` | src/Balanceador.cpp:540-557 | one server is taken out, the rest keep their order; an in-range round-robin index stays in range exactly when it was not the last one |
| `Balancer.Balanceador.Recibir` | src/Balanceador.cpp:311-324 | any datagram keeps the registry in step with the messages received |
| `Balancer.ServerGone` | src/Balanceador.cpp:171-182 | two servers connect, a client is served, the second server disconnects: the next client is given index 1 of one server |
| `Balancer.ServerGoneHappens` | src/Balanceador.cpp:540-557 | three datagrams that do it |
| `Balancer.Balanceador.Escuchar` | src/Balanceador.cpp:307-327 | after any sequence of datagrams of up to 63 characters the list has no duplicates, holds exactly the servers whose last message was to connect, and servidoresActuales is its length |
| `Balancer.Balanceador.Elegir` | src/Balanceador.cpp:171-182 | the current index is used and the next one is in range, wherever the index was |
| `Balancer.ChosenCount` | src/Balanceador.cpp:171-182 | the exact share of a server d places ahead of the index |
| `Balancer.RoundRobinIsFair` | src/Balanceador.cpp:171-182 | over any k dispatches to n servers each is chosen k/n times, rounded down or up |
| `Balancer.Balanceador.Repartir` | src/Balanceador.cpp:171-182 | the dispatch loop realises exactly that |

## Left out

- `Lock`, `Condition` and what rests on them (`SynchList`, `PostOffice`, the locking of `SynchDisk`): `Acquire` does not
  wait, so the intended contracts do not hold. `SynchDisks` models a sector transfer as one step.
- `Semaphore::Destroy`, `OpenFilesTable`, the system calls of `exception.cc`: a trap is modelled up to the call of the
  kernel's handler and not beyond.
- Deletion of finished threads, stacks and the context switch: `threadToBeDestroyed` may be overwritten before the delete
  runs.
- Threads.Kernel: the lists of threads are the sequences that `Lists.List` is proved to implement, not list objects, and
  the change of interrupt level around each operation appears as which steps are enabled.
- Ticks, due times, the values of semaphores and the counts of frames are integers without bound; their wrap-around as a C
  `int` is not modelled.
- Interrupts.Interrupt.OneTick: says whether the running thread is to yield; the yield itself is a step of `Threads`, and
  the delayed load that a handler call commits first is `Machines.Machine.DelayedLoad`.
- Machines.Machine.Run: for any number of turns, and without the clock tick and the interrupts of each. The handler of a
  trap is an arbitrary function on the registers that leaves register 0 at zero and the pending load at a general register;
  what it does to memory and page tables is not modelled here.
- Machines.Machine.OneInstruction: -2^31 / -1 in `OP_DIV` stops the machine, as do the unaligned cases of `LWL`, `LWR`,
  `SWL` and `SWR`, which sit behind an ASSERT; the debugger and single stepping are not modelled.
- OpenFiles.OpenFile.ReadAt: positions are not negative, and the end of a request that is not turned away is an int, since
  C gives the sum no meaning otherwise.
- OpenFiles.OpenFile.WriteAt: the same.
- Directories.Directory.WriteBack: the padding bytes of an entry are written as zero; in the original they hold whatever
  memory held.
- `BitMap::FetchFrom` and `BitMap::WriteBack` are called by `filesys.cc` but not part of the bitmap sources; they are
  modelled as `ReadAt` and `WriteAt` of the map's words at position 0 (`FileSystems.FetchMap`, `WriteMap`).
- FsTests.Copy: the host file is a value of less than 2^31 bytes, read in chunks; `fread` and `printf` themselves are not
  modelled.
- Threads.Kernel.Fork: is enabled for threads that were not forked before, which the original leaves to its callers.
- Frames.AddrSpace.Load: only page tables, bitmap and counts; zeroing and loading the bytes are left out, since their
  offsets use the physical page where the virtual page is meant. Header sizes do not wrap around 32 bits.
- DiskTiming.Disk.Request: the data transfer, the host file behind the disk and the statistics are left out.
- Balancer.Balanceador.Recibir: a receipt that fails, or that fills all 64 characters, is left out, since the terminator is
  then written outside the buffer; and so is a short one that leaves no terminator behind the fifth character. A
  host of more than 32 characters also overwrites what lies behind the field; only the field is modelled.
- Balancer.Balanceador.Direccion: asks for a terminator somewhere in the field; without one the original reads on behind it.
- Weighted round robin, per-client affinity and the load counters of `hilo_Cliente`; sockets, logging, HTTP and HTML.
- Console, network and timer devices, ptrace preemption, `switch.s`, the tools in `nachOS/code/bin`.
