# Verified models of the course tooling

This project models the logic at the heart of a build-your-own-X course repository and proves what it is
for. Each part of the model is a family of modules named after what it models.

- **Linker** (`Elf*`, `Linker*`): the static ELF64 linker of `linktest/examples/broken_linker.rs`, from section
  layout through symbol resolution, copying and in-place relocation to the bytes of the output file, together
  with the part of the ELF reader that reads such a file. The main theorems are end to end: map the emitted file
  as its program headers say and every address holds the byte that layout, contents and relocations call for.
  The linker drops addends on purpose; the model drops them too and says exactly when that matters.
- **Key/value node** (`Base64`, `StoreText`, `KvNode`, `KvRuns`, `KvTickets`): the node of
  `disttest/examples/broken_node.rs`, its codec, its text format, its requests, and all its runs, crashes and
  interleavings. The node acknowledges writes it has not saved; the model says exactly what a crash leaves,
  and which acknowledged writes survive one.
- **Linearizability checker** (`LinHistory`, `LinRegister`, `LinCost`, `LinSearch`, `LinPrefix`, `LinCheck`, `LinKeys`): the memoised search of
  `disttest/src/lin/mod.rs` and what its memo saves, the bisection for the smallest impossible prefix, and locality.
- **Calendar** (`Calendar`, `Timestamps`): the closed form from day numbers to dates, and timestamps as text.
- **Progress database** (`Reports`, `Progress`, `Database`, `Streak`): ingestion, the report that comes back, and
  what each progress row says of the past.
- **Test runner** (`TestRunner`): who owns nodes, the reusable cluster and scratch directories between tests.
- **Plan file** (`PlanMd`): the generator of `PLAN.md` and its two readers.
- **Static files and matchers** (`StaticFiles`, `Matchers`): URL resolution, and the two line matchers.

`Bytes`, `ByteOrder`, `Sorting` and `Wrappers` are shared. Loops of the source are methods with loops, objects
whose methods update their fields are classes, and byte buffers patched in place are arrays. Each is proved
against a specification function, about which the theorems are stated.

Where code and documentation differ, the model follows the code: the comment on `done_at` in `byo/src/db.rs:375-377`
speaks of the first time a stage went green, while the upserts at lines 351-358 and 422 clear it as soon as the
stage is found or marked not done, so it is the start of the current unbroken run. `Progress.BeginsFirstIff` says when
the two are the same, `Progress.DoneAtMoves` gives a history where they are not.

Numbers are mathematical integers unless a width is named below; where the width decides a result (the 32-bit
accumulator of the base64 decoder, the fields of relocations, the numbers of the ELF file, stage numbers read as 32
bits) it is written out.

## Model

| member | source | states |
|---|---|---|
| LinkerLayout.AlignUpLeast | linktest/examples/broken_linker.rs:136-139 | an offset is rounded up to the least multiple of the alignment that is not below it; alignments 0 and 1 leave it where it is |
| LinkerLayout.LayoutCorrect | linktest/examples/broken_linker.rs:55-71 | per kind: exactly the allocatable, non-empty sections that the kind takes in (no file contents: `.bss`; otherwise code: `.text`; otherwise writable: `.data`; otherwise `.rodata`) get a piece, each exactly one, in command-line order, each starting at the aligned end of the one before, and the kind ends where its last piece ends |
| LinkerLayout.TightDisjoint | linktest/examples/broken_linker.rs:128-150 | pieces of one kind never overlap, whatever the alignments |
| LinkerLayout.PieceWithin | linktest/examples/broken_linker.rs:128-150 | every piece lies inside the final size of its kind |
| LinkerLayout.AddressesDisjoint | linktest/examples/broken_linker.rs:29-34 | address ranges of any two different pieces are disjoint when text and rodata fit their 0x1000-byte windows |
| LinkerLayout.AddressAligned | linktest/examples/broken_linker.rs:151-156 | a piece address is a multiple of its section alignment whenever that divides 0x1000 (16 for `.bss`) |
| LinkerLayout.LayOutKind | linktest/examples/broken_linker.rs:130-149 | the cursor-and-push loop of one kind computes the specified pieces and size |
| LinkerLayout.LayOut | linktest/examples/broken_linker.rs:128-149 | the loop over the four kinds computes the specified layout |
| LinkerSymbols.AddressedWhen | linktest/examples/broken_linker.rs:158-177 | a symbol has an address exactly when it is defined, has a name or stands for a section, and is absolute or in a section that got a piece; the address is its value, from the start of that piece unless it is absolute |
| LinkerSymbols.EnterByHistory | linktest/examples/broken_linker.rs:158-187 | over any sequence of recorded definitions: resolution succeeds if and only if every strong definition is the first of its name, and the table then maps exactly the recorded names, each to its first definition |
| LinkerSymbols.ResolveObject | linktest/examples/broken_linker.rs:161-187 | the symbol loop of one object extends the table and builds its local addresses as specified, or reports the duplicate |
| LinkerSymbols.Resolve | linktest/examples/broken_linker.rs:158-187 | the whole resolution loop computes the specified globals and locals |
| LinkerImage.RunOkWhen | linktest/examples/broken_linker.rs:189-266 | a sequence of stores succeeds exactly when each is possible and inside its buffer |
| LinkerImage.RunByte | linktest/examples/broken_linker.rs:189-266 | after a run of stores every byte is the one the last store covering it put there, otherwise the old byte |
| LinkerImage.OrderIrrelevant | linktest/examples/broken_linker.rs:213-266 | pairwise disjoint stores give the same buffers in any order, and fail in any order or in none |
| LinkerRelocate.FieldVersusAbi | linktest/examples/broken_linker.rs:240-262 | for PC32, PLT32, 64, 32 and 32S: the patched value plus the dropped addend is congruent to the psABI value, so the field is right if and only if the addend is a multiple of the field range |
| LinkerRelocate.GotFieldVersusAbi | linktest/examples/broken_linker.rs:245-252 | for the three kinds that go through the global offset table: the field is S - P, what the psABI asks for if and only if slot plus addend is the symbol address modulo 2^32 |
| LinkerRelocate.LandsFourPast | linktest/examples/broken_linker.rs:243-254 | with S - P in signed 32-bit range the reference lands exactly at S + 4, and with the psABI value for A = -4 (kinds without a table slot) it would land at S |
| LinkerRelocate.CopyFromSlice | linktest/examples/broken_linker.rs:203-208 | an array range takes the bytes, and nothing else changes |
| LinkerRelocate.StoreInPlace | linktest/examples/broken_linker.rs:240-264 | one store into the right buffer, in place, or a failure that changes nothing |
| LinkerRelocate.CopySections | linktest/examples/broken_linker.rs:189-209 | the copying loop over arrays performs the specified stores |
| LinkerRelocate.RelocatePiece | linktest/examples/broken_linker.rs:213-264 | the relocation loop of one piece performs the specified patches, errors included; what they are about is `LinkerMeaning.TargetMeans` |
| LinkerRelocate.Relocate | linktest/examples/broken_linker.rs:211-266 | the whole relocation loop, in place, performs the specified patches |
| LinkerMeaning.AddressMeans | linktest/examples/broken_linker.rs:161-177 | a symbol is recorded with an address exactly when it is defined, has a name or stands for a section, and is absolute or its own section was placed: its value, from the start of that piece unless it is absolute |
| LinkerMeaning.ResolvedMeans | linktest/examples/broken_linker.rs:158-187 | read off the input objects by position: resolution succeeds if and only if no global symbol defines a name that an earlier global or weak symbol defined; the table then holds exactly the defined names, each with the address of its first definition |
| LinkerMeaning.TargetMeans | linktest/examples/broken_linker.rs:221-235 | a relocation is about the address of its own object's symbol when that has one, otherwise about the first definition of the name anywhere, and is undefined when there is neither |
| LinkerMeaning.RefersToOne | linktest/examples/broken_linker.rs:221-235 | what a relocation refers to is one address |
| LinkerMeaning.FieldMeans | linktest/examples/broken_linker.rs:240-262 | the known kinds and what each stores: four bytes of S - P, eight of S, or four of S |
| LinkerMeaning.FieldsFitWhen | linktest/examples/broken_linker.rs:211-266 | the patching can be carried out if and only if every relocation refers to something, is of a known kind and has its field inside the output section |
| LinkerContents.CopyingSucceedsWhen | linktest/examples/broken_linker.rs:189-209 | copying succeeds exactly when every non-`.bss` piece has its bytes in its object file |
| LinkerContents.FinishedByte | linktest/examples/broken_linker.rs:189-266 | each finished byte is the copied section byte or padding zero, as changed by the last relocation field over it |
| ElfFile.RecordAt | linktest/src/elf/read.rs:282-300 | a record is read if and only if it lies inside the file, and then has all its fields |
| ElfFile.SegmentFor | linktest/src/elf/read.rs:585-588 | the segment that answers for an address is the first loadable one that contains it, and none answers if and only if none does |
| LinkerReadBack.HeaderReadBack | linktest/examples/broken_linker.rs:473-496 | the ELF header, written field by field, parses back to the same entry, table offset and count |
| LinkerReadBack.SegmentsReadBack | linktest/examples/broken_linker.rs:498-509 | the program header table parses back to the segments it was written from |
| LinkerReadBack.SectionHeadersReadBack | linktest/examples/broken_linker.rs:361-471 | the section header table parses back row by row |
| LinkerReadBack.SymTabReadBack | linktest/examples/broken_linker.rs:335-350 | decoding `.symtab` against `.strtab` gives the null symbol and then exactly the globals, in order, names and addresses |
| LinkerLoad.SegmentsDisjointWhen | linktest/examples/broken_linker.rs:289-328 | the loadable segments are disjoint if and only if text and rodata fit their windows |
| LinkerLoad.SegmentsCongruent | linktest/examples/broken_linker.rs:289-328 | every file offset is congruent to its address modulo the page size and file size never exceeds memory size |
| LinkerLoad.LoadsImage | linktest/examples/broken_linker.rs:289-333 | mapping the segments (file bytes, then zero fill) gives at every address the byte of the intended image and nothing elsewhere |
| LinkerLoad.AssembledReadsBack | linktest/examples/broken_linker.rs:280-511 | the emitted file reads back: entry, segments, symbol table and contents are those it was assembled from |
| LinkerElf.HeaderFields | linktest/examples/broken_linker.rs:473-496 | the file header at the offsets of the format: identification, type, machine, version, entry, where the program and section headers are, their sizes and counts, and which section names them |
| LinkerElf.ProgramHeaderFields | linktest/examples/broken_linker.rs:498-509 | each program header at its offset: loadable, its flags, file offset, address twice, sizes, and pages of 0x1000 bytes |
| LinkerElf.SegmentsAre | linktest/examples/broken_linker.rs:289-328 | text is readable and executable, rodata readable, data readable and writable; each has the size of its contents, data reaching to the end of `.bss` |
| LinkerElf.ContentSections | linktest/examples/broken_linker.rs:361-471 | by name: `.text`, `.rodata` and `.data` have their type, flags, address and, in the file, their contents; `.bss` its address and size |
| LinkerElf.TableSections | linktest/examples/broken_linker.rs:361-471 | by name: `.symtab`, `.strtab` and `.shstrtab` are where their bytes are |
| LinkerElf.TablesAligned | linktest/examples/broken_linker.rs:330-363 | the symbol table and the section headers start at the next multiples of 8, and the string tables follow without gaps |
| LinkerElf.SymbolFields | linktest/examples/broken_linker.rs:335-350 | each symbol, field by field: its name in the string table, global, no type, first section, its address, no size |
| LinkerMain.WriteSymbols | linktest/examples/broken_linker.rs:335-350 | the symbol loop over the ordered table writes the specified string and symbol tables |
| LinkerMain.WriteHeaders | linktest/examples/broken_linker.rs:473-509 | header and program headers are written in place over the zeroed start of the file |
| LinkerMain.Assemble | linktest/examples/broken_linker.rs:280-511 | pushing the segments, copying into the zeroed buffer and appending tables gives exactly the specified file, or fails where the source would stop |
| LinkerMain.AssembleTail | linktest/examples/broken_linker.rs:335-511 | symbol tables, section names and section headers are appended where the headers say |
| LinkerMain.Fill | linktest/examples/broken_linker.rs:189-266 | the buffers, once copied and relocated, are the specified contents |
| LinkerMain.CheckInputs | linktest/examples/broken_linker.rs:113-127 | the input loop reports the first bad input |
| LinkerMain.Link | linktest/examples/broken_linker.rs:91-276 | the whole run, phase by phase with its errors, equals the specified link |
| LinkerProgram.LinkedPhases | linktest/examples/broken_linker.rs:91-276 | a successful link went through every phase, with an entry symbol and the specified contents |
| LinkerProgram.GlobalsNulFree | linktest/examples/broken_linker.rs:158-187 | names without zero bytes stay so in the table, which is what the string table needs |
| LinkerProgram.FileReadsBack | linktest/examples/broken_linker.rs:91-276 | end to end: the linked file reads back as the linker's segments, entry and symbols; segments disjoint and page-congruent |
| LinkerProgram.LoadedContents | linktest/examples/broken_linker.rs:128-276 | end to end: at each address of a piece with contents, memory holds the section's own byte as changed by the last relocation field over it |
| LinkerProgram.LoadedBss | linktest/examples/broken_linker.rs:128-276 | end to end: every byte of a `.bss` piece is zero in memory |
| LinkerProgram.LoadedField | linktest/examples/broken_linker.rs:211-276 | end to end: when relocation fields do not overlap, each relocation refers to an address S (its own object's symbol first, otherwise the first definition of the name), and memory at its site P holds S - P in four bytes, S in eight or S in four, by its kind |
| LinkerOutcome.LinkSucceedsIff | linktest/examples/broken_linker.rs:91-276 | a link succeeds if and only if there is an input and all are x86-64 relocatable objects, no global symbol defines a name defined before, every kept section is inside its file, every relocation refers to something, is of a known kind and has its field inside the output section, some symbol defines the entry, and the contents fit the file |
| LinkerOutcome.RelocationOrderIrrelevant | linktest/examples/broken_linker.rs:211-276 | when relocation fields do not overlap, permuting each object's relocations gives the same file, byte for byte |
| LinkerOutcome.PatchesReordered | linktest/examples/broken_linker.rs:211-264 | permuted relocations give the same multiset of patches |
| Base64.RoundTrip | disttest/examples/broken_node.rs:54-98 | decoding an encoding gives back the bytes, for every byte string |
| Base64.LettersOfAlphabet | disttest/examples/broken_node.rs:55 | letters and their positions are those of the table of RFC 4648 |
| Base64.KnownEncodings | disttest/examples/broken_node.rs:74-98 | the encodings of "f", "fo" and "foo" are those the standard lists |
| Base64.EncodedIsPlain | disttest/examples/broken_node.rs:74-98 | an encoding is alphabet letters followed by at most two padding characters, so it holds no space and no line break |
| Base64.ShiftedLow | disttest/examples/broken_node.rs:54-72 | the bits that fall out of the 32-bit accumulator never reach a byte that is still to be read |
| Base64.Encode | disttest/examples/broken_node.rs:74-98 | the chunk loop computes the specified encoding |
| Base64.Decode | disttest/examples/broken_node.rs:54-72 | the accumulator loop, stopping at the first `=`, computes the specified decoding, refusals included |
| StoreText.ParseDecimal | disttest/examples/broken_node.rs:306-357 | a signed number printed in decimal parses back |
| StoreText.LineRoundTrip | disttest/examples/broken_node.rs:306-357 | one stored pair printed as a line parses back to the same key and pair, empty keys and values included |
| StoreText.FieldsParse | disttest/examples/broken_node.rs:330-357 | five fields make a pair exactly when the first two decode; a number that cannot be read counts as 1 |
| StoreText.NumberUnread | disttest/examples/broken_node.rs:342-347 | anything else counts as 1 |
| StoreText.NumberRead | disttest/examples/broken_node.rs:342-347 | a number is digits after at most one sign |
| StoreText.LinesOfText | disttest/examples/broken_node.rs:306-357 | the printed text splits into exactly the printed lines |
| StoreText.StoreRoundTrip | disttest/examples/broken_node.rs:306-357 | loading a printed store gives exactly its pairs and the highest modification revision (0 when empty) |
| KvNode.Print | disttest/examples/broken_node.rs:306-328 | the printing loop computes the text of the store in key order |
| KvNode.Select | disttest/examples/broken_node.rs:154-165 | the range loop collects the selected pairs in key order |
| KvNode.SelectedExactly | disttest/examples/broken_node.rs:154-165 | the selection is ascending and holds exactly the pairs whose keys the request is about: the one key, or those from the key on and before the end, the zero-byte end included |
| KvNode.PutIs | disttest/examples/broken_node.rs:116-144 | a put takes the next revision and inserts the pair with the creation revision and version of the previous one carried on; the disk is as it was |
| KvNode.DeletionIs | disttest/examples/broken_node.rs:172-202 | a deletion removes exactly the keys it is about and leaves the others; the counter and the flag move only when there were any |
| KvNode.HitsAreAsked | disttest/examples/broken_node.rs:154-186 | the key tests of ranges and deletions, case by case; only a range treats the zero byte as a start of everything |
| KvNode.HeldHolds | disttest/examples/broken_node.rs:219-240 | a comparison is about the stored pair: its version, creation, modification or value, an absent key counting as zeros and as no value |
| KvNode.BranchMeans | disttest/examples/broken_node.rs:208-245 | every comparison holding means success; otherwise the first that does not hold decides, failure if its key can be read and a refusal if not |
| KvNode.OpsInTurn | disttest/examples/broken_node.rs:246-271 | the operations of a branch take effect and answer one after the other, unknown ones passed over |
| ByteOrder.LessWhen | disttest/examples/broken_node.rs:154-165 | keys are in lexicographic byte order |
| KvNode.Server.constructor | disttest/examples/broken_node.rs:330-357 | a fresh server on a disk is the restarted state of that disk |
| KvNode.Server.Load | disttest/examples/broken_node.rs:330-357 | loading replaces pairs and counter by what the file says |
| KvNode.Server.Flush | disttest/examples/broken_node.rs:306-328 | one flush attempt: nothing when clean; when dirty the disk holds the printed pairs if the write goes through, and the node counts as clean either way |
| KvNode.Server.DoPut | disttest/examples/broken_node.rs:116-144 | a put takes the next revision, inserts the pair with the creation revision and version of the previous one carried on, sets dirty, leaves the disk and answers |
| KvNode.Server.DoRange | disttest/examples/broken_node.rs:145-171 | a range changes nothing and answers exactly the pairs its keys are about, ascending |
| KvNode.Server.DoDelete | disttest/examples/broken_node.rs:172-202 | a deletion removes exactly the keys it is about and leaves the others, bumps the counter and the flag only when there were any, and answers how many |
| KvNode.Server.Handle | disttest/examples/broken_node.rs:114-202 | every request moves the abstract state and answers as specified |
| KvNode.Server.HandleTxn | disttest/examples/broken_node.rs:203-277 | when every comparison holds in the old state the success branch runs; when the first that does not hold can be read the failure branch runs; when it cannot, the answer is a refusal and nothing changes |
| KvRuns.EveryRun | disttest/examples/broken_node.rs:114-357 | over every run of puts, deletes, transactions, flushes that are written or fail, and crashes: revisions are fine, and the disk holds, readable, exactly the pairs of the last write that went through |
| KvRuns.CleanIsDurable | disttest/examples/broken_node.rs:306-357 | over every run whose last flush of unsaved pairs was written: whenever `dirty` is false the file reads back as exactly the pairs in memory |
| KvRuns.NothingMissed | disttest/examples/broken_node.rs:306-357 | the same over every run in which no write fails |
| KvRuns.SavedIff | disttest/examples/broken_node.rs:325-327 | over every run, a clean node is saved if and only if the last flush that found something to write was written, or the disk held the pairs in memory anyway |
| KvRuns.FailedFlushIsNotRetried | disttest/examples/broken_node.rs:325-327 | an acknowledged put whose flush fails is lost in a crash although a later flush succeeds: that one finds nothing to write |
| KvRuns.RestartRestores | disttest/examples/broken_node.rs:330-357 | a restart gives the pairs of the file and a counter of max(1, highest modification revision) |
| KvRuns.CrashRestoresLastFlush | disttest/examples/broken_node.rs:306-357 | after any run, a crash leaves exactly the pairs of the last write that went through, so nothing is lost if and only if memory held just those |
| KvRuns.WriteSurvivesIff | disttest/examples/broken_node.rs:116-144 | after any run a put is answered, later events leave its key alone, then the node crashes: the pair of that put is there again if and only if the store was written before the first crash; when no write fails, if and only if a flush came before it |
| KvRuns.TouchesIff | disttest/examples/broken_node.rs:116-202 | a request counts as touching a key exactly when in some state it changes what is stored there |
| KvRuns.FateByWrite | disttest/examples/broken_node.rs:306-357 | where a pair is after some events, read off the events: on disk exactly when the store was written with no crash before it, in memory exactly when neither happened |
| KvRuns.WrittenIffFlushed | disttest/examples/broken_node.rs:306-328 | from a dirty node on, when no write fails, the store is written before the first crash if and only if a flush comes before it |
| KvRuns.SavedIsPast | disttest/examples/broken_node.rs:306-357 | over every run, no revision on disk exceeds the counter |
| KvRuns.CleanIsSavedIff | disttest/examples/broken_node.rs:325-327 | after a flush attempt the node is clean; that means on disk if and only if there was something to write and the write went through, or the disk had it all already |
| KvRuns.AcknowledgedWriteLost | disttest/examples/broken_node.rs:134-144 | the defect from the empty start: an acknowledged put followed by a crash is gone, with a flush in between it is not |
| KvTickets.HalvesMakeAPut | disttest/examples/broken_node.rs:122-135 | taking a revision and inserting at once is the atomic put |
| KvTickets.RevisionsUnique | disttest/examples/broken_node.rs:116-202 | over every interleaving of half-puts, deletions, flushes and restarts: outstanding tickets and stored revisions are pairwise distinct and at most the counter |
| KvTickets.VersionsCountInserts | disttest/examples/broken_node.rs:127-135 | a version counts the inserts since the key was last absent, over every interleaving |
| KvTickets.PairsSpanInserts | disttest/examples/broken_node.rs:127-135 | over every interleaving, a stored pair was created at the revision of the first put inserted since its key was last absent and modified at that of the last; the disk agrees as of its flush |
| KvTickets.OrderedIff | disttest/examples/broken_node.rs:127-135 | over every interleaving, creation <= modification if and only if the first of those puts had a revision no later than the last, and version <= modification - creation + 1 if and only if no more puts were inserted than that |
| KvTickets.OverlapBreaksOrder | disttest/examples/broken_node.rs:122-135 | two overlapping puts, the second ticket inserted first: creation 3, modification 2 |
| KvTickets.OverlapMayKeepOrder | disttest/examples/broken_node.rs:122-135 | two overlapping puts inserted in the order of their tickets: creation 2, modification 3 |
| KvRuns.PutKeeps | disttest/examples/broken_node.rs:116-144 | atomic puts keep creation <= modification and version <= modification - creation + 1 |
| LinHistory.EntryOf | disttest/src/lin/mod.rs:616-641 | an entry built by the recorder keeps id, key and operation, never returned when it has no answer, whatever return it was given, and is well recorded exactly when it has no answer or its call is not after its return |
| LinRegister.ExecAnswers | disttest/src/lin/mod.rs:237-262 | a register that starts empty accepts an order of operations if and only if each has a shape of answer its request can have, each read saw what the last write, deletion or successful swap before it left, and each swap happened exactly when that was what it wanted |
| LinRegister.WindowsIff | disttest/src/lin/mod.rs:363-368 | real-time order is the same as an instant for every operation inside its own window, never going back |
| LinRegister.LinearizableIff | disttest/src/lin/mod.rs:363-368 | linearizable means: some order and instants explain the history, every answered operation once, inside its window, answering as the last change before it makes it |
| LinRegister.HeldOnce | disttest/src/lin/mod.rs:228-262 | before every position a register holds one value |
| LinSearch.FinishIffLinearizable | disttest/src/lin/mod.rs:527-584 | the candidate rule is complete: the plain depth-first search succeeds exactly on histories that some order and instants explain |
| LinSearch.FinishGivesOrder | disttest/src/lin/mod.rs:543-584 | a successful search yields an order inside every window that gives the recorded answers |
| LinSearch.OrderGivesFinish | disttest/src/lin/mod.rs:543-584 | any linearization is found: its first operation passes the candidate rule and its rest is a smaller case |
| LinSearch.WithBitChanges | disttest/src/lin/mod.rs:517-525 | setting or clearing a bit of the 64-bit words changes that bit only, and can be undone |
| LinSearch.MinRetIs | disttest/src/lin/mod.rs:546-559 | comparing with the least pending return instant is comparing with all of them |
| LinSearch.Search.constructor | disttest/src/lin/mod.rs:492-506 | a new search has everything pending and its counters agree |
| LinSearch.Search.SetLinearized | disttest/src/lin/mod.rs:517-525 | vector and bitmap change together |
| LinSearch.Search.Descend | disttest/src/lin/mod.rs:560-581 | trying one operation: success is a way to finish; failure restores vector, bitmap, order and counter and proves a dead end; the states it visits are bounded by what it adds to the memo, and without the memo too |
| LinSearch.Search.Recurse | disttest/src/lin/mod.rs:527-584 | the memoised search decides whether there is a way to finish from here, stays within the budget, and its best attempt is always a real partial placement; it visits at most one state more than the number of operations times the pairs it adds to the memo |
| LinSearch.Search.Run | disttest/src/lin/mod.rs:508-514 | decided within the budget, the answer is whether the history is linearizable, that is, has an explanation; the budget runs out only when it is less than the stated cost, for which operations times sets of operations times states is enough |
| LinSearch.SeenSize | disttest/src/lin/mod.rs:536-538 | the memo never holds more pairs than there are sets of operations times states a key can hold: no set has two bitmaps |
| LinCost.HoldableSize | disttest/src/lin/mod.rs:237-262 | a key can hold at most one state more than it has operations |
| LinCost.SoFarDescends | disttest/src/lin/mod.rs:527-584 | one operation tried inside the loop keeps the account of visited states, with the memo and without it |
| LinCost.SpentIsEnough | disttest/src/lin/mod.rs:531-538 | a search that kept the account and ran out had a budget below the stated cost |
| LinCost.EnoughGrows | disttest/src/lin/mod.rs:531-538 | fewer operations, with states among those of the others, cost no more; the cost is never above that of the search without its memo |
| LinCost.DefaultIsEnough | disttest/src/lin/mod.rs:361 | the default budget of 400,000 states decides every key of at most eleven operations |
| LinPrefix.PrefixLinearizable | disttest/src/lin/mod.rs:386-404 | a linearizable history was linearizable at every earlier instant, operations in flight losing their answer |
| LinPrefix.ImpossibleStays | disttest/src/lin/mod.rs:417-420 | a history that is impossible at one instant is impossible at every later one |
| LinPrefix.OnlyReturnsMatter | disttest/src/lin/mod.rs:417-420 | if nothing returned between two instants, the history is equally possible at both |
| LinPrefix.ImpossibleAtLast | disttest/src/lin/mod.rs:417-420 | the whole history is impossible exactly when it already was at its last return |
| LinPrefix.SearchedTwice | disttest/src/lin/mod.rs:390-404 | the prefix of a prefix is the earlier prefix |
| LinCheck.ReturnsInOrder | disttest/src/lin/mod.rs:421-427 | the list bisected holds every answered operation, each once, by instant |
| LinCheck.SearchAt | disttest/src/lin/mod.rs:432-435 | a prefix is called impossible only when it is, and the attempt reported is a real placement over it; the search is inconclusive only when the budget is below the cost of that prefix |
| LinCheck.Bisect | disttest/src/lin/mod.rs:428-446 | what bisection reports is an impossible prefix; it gives the instants whose search ran out, each with a cost above the budget, and unless one of those was impossible it reports a prefix and the history was impossible at no earlier instant |
| LinCheck.CheckOneKey | disttest/src/lin/mod.rs:406-471 | the verdict is never wrong in either direction about whether the history has an explanation; undecided only with the whole budget spent and less than the cost of the key; the culprit is the earliest unless an impossible instant ran out of budget |
| LinKeys.Keys | disttest/src/lin/mod.rs:200-209 | the loop yields the specified list of keys |
| LinKeys.KeysInOrder | disttest/src/lin/mod.rs:200-209 | the keys are exactly those of the history, each once, and every mention of a later key has one of each earlier key before it |
| LinKeys.StoreByKeys | disttest/src/lin/mod.rs:363-384 | a store accepts an order of operations exactly when every key accepts its part of it |
| LinKeys.ExecStoreAnswers | disttest/src/lin/mod.rs:363-384 | a store accepts an order of operations if and only if each may answer as it did, given what the last change to its own key before it left |
| LinKeys.StoreLinearizableIff | disttest/src/lin/mod.rs:363-384 | the whole history is linearizable exactly when some order and instants explain it, key by key |
| LinKeys.OneMayLead | disttest/src/lin/mod.rs:363-384 | of the heads of two per-key orders one may always go first: otherwise real time would go round in a circle |
| LinKeys.WholeIffEveryKey | disttest/src/lin/mod.rs:369-384 | locality: a history over many keys is linearizable if and only if each key's sub-history is, so checking key by key is enough |
| LinKeys.CheckWithBudget | disttest/src/lin/mod.rs:369-384 | fine and broken are right about whether some order and instants explain the whole history; undecided means that every key whose cost is within the budget is fine, so an undecided key does not hide a broken one; a budget of the cost of the whole history always decides |
| Calendar.CivilSteps | disttest/src/catalog.rs:166-177 | for every integer day the date is valid and the date of the next day is the calendar's next date |
| Calendar.CivilOfEpoch | disttest/src/catalog.rs:166 | day 0 is 1970-01-01 |
| Calendar.CivilIsStepping | disttest/src/catalog.rs:166-177 | the closed form equals stepping a calendar any number of days from any day |
| Calendar.CivilAndBack | disttest/src/catalog.rs:166-177 | every day number comes back from its date |
| Calendar.DaysAndBack | disttest/src/catalog.rs:166-177 | every valid date comes back from its day number |
| Calendar.CivilOrder | disttest/src/catalog.rs:166-177 | day numbers and dates are in the same order, and no two days share a date |
| Calendar.YearOfEraParts | disttest/src/catalog.rs:170 | the division formula finds the year of the era from centuries, leap cycles and years |
| Timestamps.IsoRoundTrip | disttest/src/catalog.rs:153-164 | a timestamp with a four-digit year parses back to the same instant |
| Timestamps.PaddedIs | disttest/src/catalog.rs:145-150 | a padded number reads back and has the width asked for, or the length of its digits and sign when that is more |
| Timestamps.IsoReadsBackIff | disttest/src/catalog.rs:153-164 | the text reads back if and only if the year is in 0..9999 |
| Timestamps.IsoOrder | disttest/src/catalog.rs:153-164 | with four-digit years text order is time order, and equal texts are equal instants |
| Timestamps.OrderKeptIff | disttest/src/catalog.rs:153-164 | from an instant with a four-digit year on, text order is time order for all instants up to another if and only if that one has a four-digit year too |
| Timestamps.OrderBreaks | disttest/src/catalog.rs:158 | the last second of 9999 sorts after the first of 10000 |
| Reports.Rebuild | byo/src/db.rs:535-573 | the regrouping loop computes the specified stages |
| Reports.RegroupFlatten | byo/src/db.rs:305-331 | storing the rows of a report and regrouping them drops empty stages, merges adjacent equal numbers and recomputes counts |
| Reports.SurvivesIffTidy | byo/src/db.rs:510-583 | a report comes back unchanged if and only if it is no self-check, its counts match its statuses, no stage is empty and no two adjacent stages share a number |
| Reports.TestsConserved | byo/src/db.rs:305-331 | no test is lost, invented or moved by the round trip |
| Database.Store.IngestStage | byo/src/db.rs:306-361 | one stage: its rows are appended with consecutive numbers; a self-check or a stage that ran nothing moves no progress, otherwise the row is done when nothing failed, in progress when something passed too, failed otherwise, with `done_at` kept, set or cleared accordingly |
| Database.Store.Ingest | byo/src/db.rs:273-366 | a new run id and its row; the run gives back exactly the normalised report, every earlier run gives back what it did, a self-check moves no progress and any other report moves each of its stages by its counts, and no progress row mentions a missing run |
| Database.Store.SetState | byo/src/db.rs:415-434 | the row after a mark, with `done_at` kept, set or cleared |
| Database.Store.SetNote | byo/src/db.rs:437-452 | the row after a note; nothing but the note and the time changes |
| Database.Store.RunReport | byo/src/db.rs:510-583 | the report read back from the stored rows |
| Database.Store.Reset | byo/src/db.rs:696-708 | everything is gone and run ids start again |
| Database.Store.RowsTellThePast | byo/src/db.rs:273-452 | whatever was done to the database, each of its rows tells its stage's past |
| Progress.ProgressByHistory | byo/src/db.rs:333-361 | for every history: a stage has a row exactly when something touched it; the row is done exactly when `done_at` is set, which is the start of the current unbroken run of done events; its note, last run and time are the last written |
| Progress.StateIff | byo/src/db.rs:340-358 | for every history: a stage is done if and only if what last set it is a mark as done or a run of some of its tests without failures; in progress if that run has failures and passes; failed if it has failures only |
| Progress.DoneAppend | byo/src/db.rs:351-358 | one more event keeps that meaning of `done_at` |
| Progress.BeginsFirstIff | byo/src/db.rs:375-377 | `done_at` is the time the stage first went green if and only if no later event found it otherwise |
| Progress.DoneAtMoves | byo/src/db.rs:415-434 | marked done, not done and done again: `done_at` is the second time |
| Streak.StreakFromDays | byo/src/db.rs:628-654 | on any unsorted list with duplicates and unreadable entries: the number of consecutive days ending at the latest date when that is today or yesterday, otherwise 0 |
| Streak.StreakUnique | byo/src/db.rs:628-654 | that description fits only one number |
| TestRunner.Runner.constructor | disttest/src/runner.rs:96-125 | a new runner owns nothing and no scratch directory exists |
| TestRunner.Runner.NextTmp | disttest/src/runner.rs:183-191 | a new directory, numbered next, remembered only with `--keep-tmp` |
| TestRunner.Runner.ReleaseTmp | disttest/src/runner.rs:199-207 | the directory goes, unless kept or still in use by the live cluster |
| TestRunner.Runner.DropCluster | disttest/src/runner.rs:234-244 | cluster, shape and directory go together |
| TestRunner.Runner.BeginStage | disttest/src/runner.rs:215-219 | a new stage inherits no node and no cluster |
| TestRunner.Runner.EndRun | disttest/src/runner.rs:222-225 | without `--keep-tmp` only directories of tests whose setup failed are left |
| TestRunner.Runner.StartSingleNode | disttest/src/runner.rs:467-500 | a node and its client together or neither |
| TestRunner.Runner.EnsureCluster | disttest/src/runner.rs:503-527 | the live cluster exactly when it is up, has the members and spares asked for, is not spoilt and the test does not insist on its own; otherwise a new one with those members and spares in the test's own directory, after the old one is gone |
| TestRunner.Runner.Conduct | disttest/src/runner.rs:406-446 | what was lent is taken back, a node never survives, a dirty cluster is dropped, and the right directory is deleted |
| TestRunner.Runner.PrepareAndRun | disttest/src/runner.rs:335-447 | what the log says of the test, and what is left on disk, for every outcome of setup and test |
| TestRunner.Runner.RunIn | disttest/src/runner.rs:346-446 | the same for a test that has its directory |
| TestRunner.Runner.RunTest | disttest/src/runner.rs:255-314 | the status for every outcome, pass and skip each if and only if; which cluster a test got; between tests cluster, shape and directory are together, the live directory exists, and nothing a failing test touched is kept |
| TestRunner.Runner.ReusesAreSafe | disttest/src/runner.rs:299-303 | over any run: a reused cluster was made in the same stage with the same members and spares, not for a `fresh` test, and everyone who used it since passed and left it clean |
| PlanMd.ExistingTicks | disttest/tools/gen_plan.py:69-78 | the reader loop of the generator computes the specified ticks, a later line winning |
| PlanMd.PlanTicks | disttest/src/catalog.rs:180-196 | the reader loop of `--list` computes the specified ticks, numbers beyond 32 bits passed over |
| PlanMd.TickIff | disttest/tools/gen_plan.py:75-77 | a line is an entry exactly when it is a dash, a box with a blank or a tick, and a stage number in bold |
| PlanMd.TickIs | disttest/tools/gen_plan.py:75-77 | such a line says its number and whether its box is ticked |
| PlanMd.TicksAre | disttest/tools/gen_plan.py:69-78 | a stage has the tick of the last line about it, and numbers of 32 bits and more are passed over where that is asked for |
| PlanMd.Generate | disttest/tools/gen_plan.py:81-140 | the generator, section by section and with its totals table, writes exactly the specified lines |
| PlanMd.WriteHead | disttest/tools/gen_plan.py:88-99 | a section heading, and the blurb of its ladder only the first time |
| PlanMd.UpperIs | disttest/tools/gen_plan.py:90 | section ids are written in capitals, letter by letter |
| PlanMd.CountTotals | disttest/tools/gen_plan.py:119-123 | the dictionary loop counts the stages and tests of each ladder |
| PlanMd.TotalsAddUp | disttest/tools/gen_plan.py:131-137 | the ladders share out the stages and tests of the catalog, so the last row is their sum |
| PlanMd.StageLineTick | disttest/tools/gen_plan.py:103-115 | the first line of an entry reads back as its number and its box |
| PlanMd.LinesOfUnlines | disttest/tools/gen_plan.py:139-140 | lines without line breaks read back from Python and from Rust as they were written |
| PlanMd.TicksSurvive | disttest/tools/gen_plan.py:69-140 | both readers find in the generated text exactly the listed stages, ticked when catalogued and ticked before, planned ones unticked |
| PlanMd.GeneratingAgain | disttest/tools/gen_plan.py:81-140 | generating again from the same catalog gives the same lines, whatever file was there first |
| StaticFiles.Resolve | byo/src/static_files.rs:21-71 | the segment loop, the checks in their order and the popping fallback compute the specified resolution |
| StaticFiles.RedirectsOnce | byo/src/static_files.rs:40-47 | a redirect target re-splits to the same segments and resolves in one step to the directory's index |
| StaticFiles.NearestIsLongest | byo/src/static_files.rs:58-70 | the fallback is the index of the longest prefix that has one |
| StaticFiles.FilesExistBelowRoot | byo/src/static_files.rs:21-71 | whatever is sent is an existing file, and no segment of its path is empty, `.` or `..` or holds a slash or a zero character |
| StaticFiles.NotFoundIff | byo/src/static_files.rs:21-71 | nothing is found exactly when some piece between the slashes is `..` or holds a zero character, or there is no such file, page or index at or above |
| StaticFiles.SegmentsOfUrl | byo/src/static_files.rs:22-33 | a URL with a piece that is `..` or holds a zero character has no segments; those of any other are exactly its pieces that are neither empty nor `.`, in order |
| StaticFiles.PiecesOfUrl | byo/src/static_files.rs:24 | the pieces with slashes between them are the URL, and none holds a slash |
| StaticFiles.WhichIsSent | byo/src/static_files.rs:36-67 | the file itself first, then the directory's index or the redirect to it, then the page, then the nearest index |
| StaticFiles.DirUrlPieces | byo/src/static_files.rs:43 | between the slashes of a redirect target are exactly the segments |
| StaticFiles.DirUrlSegments | byo/src/static_files.rs:44 | joining proper segments and splitting again gives the segments |
| Matchers.LinesInOrder | shelltest/src/matchers.rs:146-154 | the greedy scan accepts exactly when the wanted lines are a subsequence, and otherwise names the first line that cannot follow the others |
| Matchers.GreedyNext | shelltest/src/matchers.rs:146-154 | the scan has always consumed the shortest prefix that will do |
| Matchers.SameLines | shelltest/src/matchers.rs:137-145 | sorting both sides and comparing accepts exactly equal line multisets |
| Matchers.SortedSame | shelltest/src/matchers.rs:138-142 | two sorted lists of the same lines are the same list |
| Matchers.Check | shelltest/src/matchers.rs:119-156 | the check accepts exactly what the matcher describes, for every kind of matcher, given what the regular-expression engine says, and otherwise gives the reason that belongs to the matcher |
| Matchers.OccursIff | shelltest/src/matchers.rs:130-137 | a part occurs exactly when the text is something, the part, and something more |
| Sorting.SortSorted | disttest/src/lin/mod.rs:427 | sorting by a total preorder orders |
| Database.Store.IngestStages | byo/src/db.rs:305-362 | the loop over the stages numbers all test rows from 0 on and applies each stage's progress in order |
| Database.ReportEventsAre | byo/src/db.rs:333-358 | a self-check moves nothing; any other report gives one event for each stage, in order, with its counts |
| Matchers.NextLine | shelltest/src/matchers.rs:149 | advancing the iterator stops just after the first equal line, or at the end when there is none |
| PlanMd.WriteHints | disttest/tools/gen_plan.py:116-117 | one indented line per hint |
| PlanMd.WriteEntry | disttest/tools/gen_plan.py:101-117 | one entry, planned or catalogued, with its box |
| PlanMd.EntryText | disttest/tools/gen_plan.py:103-118 | the first line of an entry, word by word |
| PlanMd.CountTextIs | disttest/tools/gen_plan.py:107-111 | one test or so many tests, and how many are extensions unless none is or the whole stage is one |
| PlanMd.WriteEntries | disttest/tools/gen_plan.py:100-117 | the entries of a section in order |
| PlanMd.FindLadder | disttest/tools/gen_plan.py:91-96 | the ladder of the last catalogued stage of the section |
| PlanMd.LastLadderIs | disttest/tools/gen_plan.py:91-96 | the ladder of a section is that of the last of its stages that is in the catalog |
| PlanMd.IntroducedIs | disttest/tools/gen_plan.py:97-99 | a blurb is written exactly when no earlier section ended on its ladder |
| PlanMd.ByNumberIs | disttest/tools/gen_plan.py:84 | the stage of a number is the last in the catalog that has it |
| PlanMd.ExtTestsAre | disttest/tools/gen_plan.py:108 | the extension tests of a stage are counted |
| PlanMd.WriteRow | disttest/tools/gen_plan.py:126-130 | a row only for a ladder that has stages |
| PlanMd.LadderRowIs | disttest/tools/gen_plan.py:125-129 | a ladder has its row exactly when some stage of the catalog is on it |
| PlanMd.WriteTotals | disttest/tools/gen_plan.py:119-137 | the table of totals, its last row summing the rows above it, is the totals of the catalog |
| TestRunner.Runner.DropNode | disttest/src/runner.rs:227-232 | node and client go together |
| TestRunner.Runner.SetUp | disttest/src/runner.rs:369-396 | what each ladder lends, and that a failed setup leaves no cluster and no node |
| LinKeys.KeyAtIs | disttest/src/lin/mod.rs:191-197 | the entries of a key are taken at increasing positions, and exactly at those that hold the key |
| LinPrefix.KeptIs | disttest/src/lin/mod.rs:390-404 | the prefix at an instant is taken at increasing positions, and exactly at those called by then |
| LinPrefix.SearchedIs | disttest/src/lin/mod.rs:386-404 | an operation of the prefix keeps its answer exactly when that came by the instant, and otherwise counts as never answered |
| LinPrefix.SearchedRecorded | disttest/src/lin/mod.rs:390-404 | cutting off answers that come later leaves a well-recorded history |
| ByteOrder.SortedKeys | linktest/examples/broken_linker.rs:338 | the keys of an ordered map, each once and ascending |

## Left out

- Machine-integer overflow of addresses, section sizes, revisions, day numbers, instants and counters: the model
  computes with mathematical integers, and the end-to-end linker theorems require that every number fits its field.
- Parsing of relocatable input objects and their names as UTF-8: objects are given as sections, symbols and relocations.
- Reading and writing files and directories, the command line, file permissions and messages of errors; an error is
  a constructor with what it names.
- A crash in the middle of writing `store.txt`: a flush replaces the file at once, and a write that fails leaves it as it was.
- LinkerRelocate.LandsFourPast: for the kinds that go through the global offset table nothing is said of the psABI
  value, which names a slot of a table that this linker does not make; relaxed instructions are not modelled.
- HTTP, JSON and the conversion of keys and values to and from request bodies beyond base64.
- Threads: interleavings of requests are sequences of half-put, deletion, flush and restart steps.
- Paxos, Raft and the other example programs driven by external commands: each step is a reply to a test's command.
- Rendering of histories and violations, and the recording of instants; a history is given with call not after return.
- Parsing of dates in the streak (a library): a day is a day number or unreadable.
- The SQLite engine: tables are maps and sequences, every transaction commits, and JSON text columns hold the values
  they were given. Projects, metadata, scores and the listing queries are not part of this model.
- Calendar.CivilFromDays: the 64-bit range of the source is not modelled, because the result holds for all integers.
- Ports, processes, sockets and timeouts of the test runner: what the outside world does in a test is a parameter.
  Tests hand back what they were lent, and a stage begins before its first test, as the driver does.
- TestRunner.Runner.RunTest: the look for a crashed node after a test finds none, because none outlives its test; the
  model states that instead of branching on it.
- PlanMd.Generate: the fixed prose of the file is a parameter whose lines look like no entry, and upper-casing of
  section ids is modelled for ASCII letters; digits other than ASCII ones are not read as stage numbers.
- Symbolic links, and percent-encoding of URLs: a tree is a set of files and a set of directories.
- The regular-expression engine of the matchers is a library: what it says of a pattern and a text is a parameter.
- The console, colours, help texts, MIME types and track registries are not part of this model.
