# symdb: models and proofs

symdb is a symbol-index server: worker threads compile C++ files, and the main thread stores where
symbols are defined and referred to.  This project models four parts of it and proves what they
keep.

- **The cross-reference index** (`SymbolDb`, `ReferenceIndex`, `DefinitionIndex`, `CompileCommit`,
  `RebuildOrder`, `Project`, `Counterexamples`).  Records are maps, one per key family; a batch is a
  list of put and delete operations that take effect at commit, so reads in between see the database
  as it was.  Methods of the class `Project.Project` do what the C++ methods do; the specification
  they refine says what a batch does to both directions of the index, for every order in which the
  maps are walked.
- **The build protocol** (`BuildProtocol`, `IndexRuns`).  Main-thread handlers and the shared
  effects of the workers are steps of a state machine with two queues; the theorems are about all
  runs, and about what runs do to the indexes.
- **Streaming MD5** (`Md5Rounds`, `Md5`).  The compression function is proved equal to the one of
  RFC 1321, the buffered context to the padding and block order of its sections 3.1 to 3.4.
- **The flag cache** (`CompilerFlags`, `Paths`, `FlagCache`).  Two maps that reloads and directory
  events must keep in step, and the list editor for compiler flags.
- **Algorithms shipped in the tree** (`Gcd`, `Rational`, `Permutation`, `MinMax`, `Tokenizer`,
  `Hex`).  `KnownAnswers` fixes their constants, and those of the hasher and the flag editor, by
  worked examples.

`dafny verify dfyconfig.toml` checks everything.

## What the code does not keep

Some properties that one would expect are false of the code.  The code is modelled as it is; each
item below is proved, and where the property holds under a condition, that condition is exact.  The
module `Counterexamples` reaches several of these states from empty databases and maps.

- Two modules of one symbol that change in one compile write the same key twice, and the last one
  wins (`WriteAgreesExactly`, `TwoModulesInOneCompile`).
- Erasing a file leaves its forward record in place, so rebuilding an unchanged file loses its
  postings (`IdenticalRebuildLosesPostings`, `RecompileAgreesExactly`); a file that refers to one
  symbol under two modules does not lose all of them (`DeleteRemovesExactly`,
  `DeletionLeavesPosting`), and what a rebuild of such a file restores depends on the order of the
  walks (`RebuildInOrderExactly`).
- A symbol that vanishes from a file loses its whole definition record, the entries of other
  modules included (`OtherModulesKeptExactly`, `VanishedSymbolTakesAll`).
- A file whose directory has no module may not see its own definitions (`QueryAfterWriteExactly`,
  `NoModuleHidesDefinition`).  BuildFile refuses files without flags (src/server/Project.cpp:343-348),
  so the directory must lose its module while the file is compiled: it is removed, or a reload no
  longer maps it, before the compile commits.
- A worker that cannot stat its file never removes it from the set of files being parsed
  (`StepKeepsLost`, `LostForever`), and a deletion during a build lets two builds of one file run
  (`RunsKeepInvExactly`, `RunsKeepOneBuildExactly`, `DeleteDuringBuildRaces`).
- ForceSync never erases the files that left the project (`Project.Project.ForceSync`,
  `DroppedFileStays`).
- AddDirToModule checks that the directory is not mapped yet by looking up its absolute path in a
  map of relative paths, so the check never fails; adding the home of another module breaks the
  maps (`AddKeepsExactly`, `NestedHomeBreaksMaps`).
- A JSON entry without a command throws after both directories were mapped, and the reload swallows
  it: they name a module without flags (`LoadEndsExactly`, `MissingCommandBreaksMaps`).  A command
  whose file is a directory with a project file maps the parent directory to the module below it
  (`LoadKeepsExactly`, `StrayComesRight`).
- A module beside the project passes for one inside it when its name continues the project's
  (`ModuleInsideExactly`, `BesideProjectPasses`).
- A project may have a name under which another record is stored (`ProjectKeyCollidesExactly`).
- The reset of a separator does nothing (`ReuseLosesField`).

## Model

| member | source | states |
|---|---|---|
| `SymbolDb.KeyTextInjective` | src/server/Project.cpp:817-847 | two records of the five key families or the home record have the same key text if and only if they are the same record, whatever colons the names contain |
| `SymbolDb.ProjectKeyCollidesExactly` | src/server/Project.cpp:51-61 | the project record, stored under the bare project name, shares its key with another record if and only if the name is home or begins with one of the five prefixes |
| `SymbolDb.ApplyAllConcat` | src/server/Project.cpp:22-74 | committing two batches after each other equals committing their concatenation |
| `ReferenceIndex.PostingsMean` | src/server/Project.cpp:741-762 | a stored symbol record means, entry by entry: a module is there if some item names it, a file is posted under it if some entry of such an item does, at the places of all of those entries |
| `ReferenceIndex.FileReferencesMean` | src/server/Project.cpp:721-739 | a stored forward record means the same for a symbol and module: there if some entry names both, at the places of all that do |
| `ReferenceIndex.WriteLeavesOtherFiles` | src/server/Project.cpp:538-646 | a committed write changes no posting and no forward record of any other file, agreeing indexes or not, in whatever order the maps are walked |
| `ReferenceIndex.WriteSetsForwardRecord` | src/server/Project.cpp:538-646 | from indexes that agree for the file, its forward record equals the new symbols after the commit, also when nothing was written |
| `ReferenceIndex.NothingWrittenExactly` | src/server/Project.cpp:587-645 | from indexes that agree for the file, a compile writes no reference record if and only if it found exactly the stored ones |
| `ReferenceIndex.WriteAgreesInGeneral` | src/server/Project.cpp:538-646 | whatever state a file's records are in, its two indexes agree after the commit if and only if every key was written last for its symbol or was posted with its new places before |
| `ReferenceIndex.WriteKeepsAgreement` | src/server/Project.cpp:538-646 | forward and inverse indexes that agree for the file on every symbol and module still agree after the commit when no symbol changes under two modules |
| `ReferenceIndex.TwoChangesLoseOne` | src/server/Project.cpp:560-625 | two changed modules of one symbol in one batch: whichever is written first is lost, and the indexes disagree for the file |
| `ReferenceIndex.WriteAgreesExactly` | src/server/Project.cpp:538-646 | from indexes that agree for the file they agree after the commit if and only if no symbol's places change under two modules, a condition on the old record and the new symbols |
| `ReferenceIndex.WriteAgreesEverywhereExactly` | src/server/Project.cpp:538-646 | the same for the agreement of all files |
| `ReferenceIndex.WriteKeepsCompact` | src/server/Project.cpp:560-625 | no committed symbol record is empty or holds an empty module map |
| `ReferenceIndex.LastChangeCommits` | src/server/Project.cpp:22-74 | of several changes to one symbol in a batch only the last counts, computed from the record as it was before the batch |
| `ReferenceIndex.DeleteLeavesOthers` | src/server/Project.cpp:1163-1214 | deleting a file's references changes no other file's postings and no forward record, its own included |
| `ReferenceIndex.DeleteRemovesExactly` | src/server/Project.cpp:1163-1214 | from indexes that agree for the file the deletion removes every posting of the file, and keeps its forward record, if and only if each symbol appears under one module in that record |
| `ReferenceIndex.DeleteLeavesOtherAgreement` | src/server/Project.cpp:1163-1214 | deleting a file's references decides nothing about the agreement of any other file |
| `ReferenceIndex.DeleteKeepsCompact` | src/server/Project.cpp:1163-1214 | after the deletion no symbol record is empty or holds an empty module map, given that none did before |
| `ReferenceIndex.RecompileAgreesExactly` | src/server/Project.cpp:311-333 | compiling a file whose postings were deleted restores its agreement if and only if no symbol kept its old places, every symbol has one module, and an empty result still found something to write |
| `ReferenceIndex.IdenticalRebuildLosesPostings` | src/server/Project.cpp:311-333 | an unchanged file that is rebuilt writes nothing back: all its postings are gone, and the indexes disagree unless it referred to nothing |
| `DefinitionIndex.AddThenFind` | src/server/Project.cpp:1220-1236 | after adding a location, its module finds it and every other module finds what it found before |
| `DefinitionIndex.RemoveThenFind` | src/server/Project.cpp:1238-1250 | after removing a module from a record with one entry per module, that module finds nothing and every other module what it found before |
| `DefinitionIndex.QueryAfterWriteExactly` | src/server/Project.cpp:470-536 | after a compile commits, QuerySymbolDefinition from the file finds exactly that compile's location for a symbol it defined if and only if the file has a module, or the entry is at the front of the record with an absolute path |
| `DefinitionIndex.LoadAfterWriteExactly` | src/server/Project.cpp:699-719 | whatever was stored before, loading the file's definitions after the commit gives back exactly what the compile found if and only if a query finds each of them |
| `DefinitionIndex.NothingWrittenExactly` | src/server/Project.cpp:492-536 | a compile writes no definition record and no list if and only if it found exactly the definitions that load back |
| `DefinitionIndex.OtherModulesKeptExactly` | src/server/Project.cpp:492-508 | another module's entry of a symbol survives the commit if and only if the symbol did not vanish from the file or the entry was not there |
| `DefinitionIndex.WriteKeepsOnePerModule` | src/server/Project.cpp:470-536 | every definition record keeps at most one location per module across a committed write |
| `DefinitionIndex.DeletedDefinitions` | src/server/Project.cpp:1138-1161 | the deletion removes the file's module from exactly the listed symbols and touches no other entry |
| `DefinitionIndex.DeletionKeepsOnePerModule` | src/server/Project.cpp:1138-1161 | every definition record keeps at most one location per module across a committed deletion |
| `DefinitionIndex.QueryKeptByWriteExactly` | src/server/Project.cpp:798-815 | a committed compile of any file leaves what a file sees of a symbol as it is if and only if the symbol does not vanish and nothing else is stored for the module or the first entry that it sees |
| `DefinitionIndex.QueryKeptByDeletionExactly` | src/server/Project.cpp:1138-1161 | a committed erasure of any file leaves it as it is if and only if the erased file does not list the symbol or belongs to another module than the location seen |
| `CompileCommit.PartsCommit` | src/server/Project.cpp:452-468 | the parts of one batch, all computed from the same committed database, commit independently of each other |
| `CompileCommit.GroupedByModule` | src/server/Project.cpp:541-553 | the reported references are filed under the module of the path that each leads to: a symbol and module are there if and only if the symbol is reported at a path of that module, and so is each place |
| `CompileCommit.FiledOnce` | src/server/Project.cpp:541-553 | only one map files them so |
| `CompileCommit.CompileFilesByModule` | src/server/Project.cpp:538-646 | after a committed compile the forward record files the references so, and the file is posted for a symbol and module exactly when one is reported there, unless a symbol changed under two modules |
| `CompileCommit.CompileLoadsBack` | src/server/Project.cpp:452-468 | after a committed compile the new stamp is stored, the definitions load back as reported if and only if they are seen from the file, and the forward references do when the indexes agreed |
| `CompileCommit.OnlyStampExactly` | src/server/Project.cpp:452-468 | from agreeing indexes the batch of a compile holds the stamp alone if and only if definitions and references are exactly those stored |
| `CompileCommit.CompileReferences` | src/server/Project.cpp:452-468 | a committed compile decides nothing about other files; for its own file it keeps agreement exactly when no symbol changes under two modules, and restores it after an erasure exactly under RecompileRestores |
| `CompileCommit.CompileKeepsOnePerModule` | src/server/Project.cpp:452-468 | a committed compile keeps at most one location per module in every record |
| `CompileCommit.ErasureReferences` | src/server/Project.cpp:311-333 | erasing a file decides nothing about other files, and leaves its own file without postings exactly when each symbol has one module in its record |
| `CompileCommit.ErasureKeepsOnePerModule` | src/server/Project.cpp:311-333 | erasing a file keeps one location per module in every record |
| `CompileCommit.RebuildOutcome` | src/server/Project.cpp:311-333 | erase and compile again: the definitions come back if and only if they are seen from the file, the references agree again if and only if every posting the erasure took or left is recovered, in any walk order |
| `CompileCommit.CompileLeavesOthers` | src/server/Project.cpp:452-468 | a committed compile leaves another file's stamp, definition list, forward record and postings as they are |
| `CompileCommit.ErasureLeavesOthers` | src/server/Project.cpp:311-333 | so does a committed erasure |
| `RebuildOrder.LessExactly` | src/server/Project.h:22-25 | the order of the names is that of the first different character, a prefix first |
| `RebuildOrder.SortedWalksInOrder` | src/server/Project.cpp:588-627 | a sorted walk over the vanished keys followed by one over the new keys is in the order that the next two rows speak of |
| `RebuildOrder.LastIsGreatest` | src/server/Project.cpp:588-627 | when the maps are walked in key order, the change of a symbol that counts is the one for its last module, new keys after vanished ones |
| `RebuildOrder.RebuildInOrderExactly` | src/server/Project.cpp:311-333 | in key order, erasing a file and compiling it again brings its references back together if and only if a condition on the new symbols and the state before the erasure holds: each posting is written last or left as it should be, and something is written unless the file referred to nothing |
| `BuildProtocol.StepTokens` | src/server/Project.cpp:311-450 | each step changes the number of live builds of a path by exactly what starting a build adds and a handled removal or failed stat takes away |
| `BuildProtocol.StepKeepsInvExactly` | src/server/Project.cpp:396-450 | a step keeps, for a path, that its builds match in_parsing_files_, that each posted write is followed by its removal, and that its stored stamp matches the history of compiles, if and only if it does not delete the path while a build of it is live |
| `BuildProtocol.RunsKeepInvExactly` | src/server/Project.cpp:287-468 | that holds in every state of a run, of any length and interleaving, if and only if the run deletes the path only while no build of it is live; what happens to other paths is free |
| `BuildProtocol.OneBuildPerPath` | src/server/Project.cpp:311-355 | in every such run the path has at most one live build (queued task, running worker or posted removal), and has one exactly when it is in in_parsing_files_ and not lost to a failed stat |
| `BuildProtocol.RunsKeepOneBuildExactly` | src/server/Project.cpp:311-355 | over every run, deletions during builds included, a path has at most one live build in every state if and only if no step starts a build of it while another is live |
| `BuildProtocol.SecondStartNeedsDeletion` | src/server/Project.cpp:1116-1136 | no such second start happens in a run that deletes the path only while no build of it is live |
| `BuildProtocol.ReadSeesLatestCompile` | src/server/Project.cpp:411-443 | in every such run, when a worker reads a file's stored stamp no write of that file is pending, and what it reads is the stamp of the latest finished compile |
| `BuildProtocol.SkipTestExactly` | src/server/Project.cpp:411-433 | in every such run a worker that has read the stamp holds that of the latest finished compile (time 0 and no checksum if there is none); its next step posts nothing, and leaves the file if and only if its time or its checksum is the same, else goes on to parse with exactly the new ones |
| `BuildProtocol.PostedOnlyWhenChanged` | src/server/Project.cpp:426-443 | in every such run a compile is posted only for a file whose time and checksum both differ from those of its latest finished compile, and it carries the new ones |
| `BuildProtocol.QuietMeansOnlyLostLeft` | src/server/Project.cpp:648-667 | when nothing is queued or running, a path is in in_parsing_files_ exactly when its worker could not stat its file, and its stored stamp is that of its latest compile |
| `BuildProtocol.StepKeepsLost` | src/server/Project.cpp:400-409 | a path whose worker could not stat its file stays lost across a step, with everything stored for it unchanged, if and only if the step is not its own deletion |
| `BuildProtocol.LostForever` | src/server/Project.cpp:400-409 | up to its own deletion such a path stays in in_parsing_files_: it is never built again and nothing stored for it changes, whatever is done to other paths |
| `BuildProtocol.RunsKeepSourceExactly` | src/server/Project.cpp:1116-1119 | over every run a source stays one in every state, whatever is deleted or built besides, if and only if no step is its own deletion or a source set without it |
| `BuildProtocol.StepKeepsStored` | src/server/Project.cpp:287-468 | a step that neither erases a file nor commits a compile of it changes nothing stored for the file, deletions and rebuilds of others included |
| `BuildProtocol.DroppedFileStays` | src/server/Project.cpp:1062-1136 | over every run in which a file that dropped out of the sources neither returns nor is rebuilt, deleting it has no effect, it is never erased, and its stamp, definition list, forward record and all its postings stay until a compile still under way is written |
| `BuildProtocol.DeleteDuringBuildRaces` | src/server/Project.cpp:1116-1136 | a concrete run from an initial state: deleting and building again a file that a worker still compiles gives two live builds and a stale read |
| `IndexRuns.RunsKeepOnePerModule` | src/server/Project.cpp:452-536 | over every run, deletions and rebuilds included, no definition record holds two locations of one module |
| `IndexRuns.StepAgreesExactly` | src/server/Project.cpp:452-646 | for each file, whatever the step does to others: the indexes agree after its compile, and it has no postings after its erasure, if and only if the step meets a condition on the state before it |
| `IndexRuns.RunsAgreeExactly` | src/server/Project.cpp:287-468 | over every run, erasures and rebuilds included, that holds for a file in every state if and only if each step that touches the file meets its condition |
| `IndexRuns.RunsKeepRecords` | src/server/Project.cpp:287-468 | at the end of a run whose steps meet their conditions the indexes agree for the file if its last erasure was followed by a compile, and it has no postings if not |
| `IndexRuns.RunsKeepAgreementFor` | src/server/Project.cpp:452-646 | over every run the references of a file agree as long as no step erases that file and no unit written for it changes a symbol under two modules |
| `IndexRuns.RunsKeepAgreement` | src/server/Project.cpp:452-646 | the same for the indexes as a whole |
| `IndexRuns.StepKeepsDefinitionExactly` | src/server/Project.cpp:470-536 | what a file sees of a symbol, through its module or the first stored entry, stays the same across a step if and only if the compile or erasure it commits leaves it, a condition on the state before |
| `IndexRuns.RunsKeepDefinitionExactly` | src/server/Project.cpp:287-468 | over every run a file goes on seeing the same definition of a symbol in every state if and only if each step leaves it |
| `IndexRuns.CompiledDefinitionStays` | src/server/Project.cpp:452-536 | from the commit of its compile on, a file sees the location that the compile found until the first step that does not leave it |
| `Counterexamples.TwoModulesInOneCompile` | src/server/Project.cpp:560-625 | from an empty database, one compile that refers to a symbol under two modules loses the posting written first |
| `Counterexamples.DeletionLeavesPosting` | src/server/Project.cpp:1163-1214 | from an empty database, two compiles after which the indexes agree, and a deletion that leaves a posting of the file behind |
| `Counterexamples.VanishedSymbolTakesAll` | src/server/Project.cpp:492-508 | from an empty database, two compiles that define a symbol in two modules, and a third that takes the other module's definition away |
| `Counterexamples.NoModuleHidesDefinition` | src/server/Project.cpp:849-871 | from an empty database: one module defines a symbol, then a file whose directory has no module when its compile commits defines it too; the file sees the other definition, and its own do not load back |
| `Counterexamples.NestedHomeBreaksMaps` | src/server/CompilerFlagCache.cpp:335-343 | a run from empty maps, one reload of a project with a nested project and a create event for the nested directory, that ends with the maps out of step |
| `Counterexamples.MissingCommandBreaksMaps` | src/server/CompilerFlagCache.cpp:308-319 | a reload from a JSON file whose entry has no command returns normally and leaves the file's directory mapped to a module without flags |
| `Counterexamples.StrayComesRight` | src/server/CompilerFlagCache.cpp:308-317 | a reload whose first command has a project directory for its file: the maps are out of step after that command and in step again at the end |
| `Project.EncodePostings` | src/server/Project.cpp:560-585 | a symbol's reference record survives encoding: reading the stored message gives back the same nested map |
| `Project.EncodeFileReferences` | src/server/Project.cpp:627-645 | a file's forward record survives encoding |
| `Project.ReadPostings` | src/server/Project.cpp:741-762 | the nested loops compute the declared meaning of a stored symbol record, duplicate modules and paths merged |
| `Project.ReadFileReferences` | src/server/Project.cpp:721-739 | the loop computes the declared meaning of a stored forward record |
| `Project.Project.LoadSymbolReferenceInfo` | src/server/Project.cpp:741-762 | reports whether the record exists and returns what the committed record means |
| `Project.Project.LoadFileReferredSymbolInfo` | src/server/Project.cpp:721-739 | reports whether the record exists and returns what the committed record means |
| `Project.Project.GroupReferences` | src/server/Project.cpp:541-553 | references to all files of one module are merged under that module: a symbol and module are in the result if and only if the symbol is reported at some path whose module that is, and a place if and only if it is reported at such a path |
| `Project.Project.WriteFileReferences` | src/server/Project.cpp:538-646 | the diffing loops add to the batch exactly a reference batch for the new symbols, for every order of the maps |
| `Project.Project.DeleteFileReferredSymbolInfo` | src/server/Project.cpp:1163-1214 | the loop adds to the batch exactly the deletion of the file's postings |
| `Project.Project.GetSymbolLocation` | src/server/Project.cpp:849-871 | finds the location of the asking file's module, made absolute, or none |
| `Project.Project.AddSymbolLocation` | src/server/Project.cpp:1220-1236 | replaces the entry of the module or appends one |
| `Project.Project.RemoveSymbolLocation` | src/server/Project.cpp:1238-1250 | removes the entry of the module and reports whether there was one |
| `Project.Project.QuerySymbolDefinition` | src/server/Project.cpp:798-815 | returns the entry of the asking file's module, else the first one, else none |
| `Project.Project.LoadFileDefinedSymbolInfo` | src/server/Project.cpp:699-719 | returns exactly the listed symbols whose query from the file has a path, with what the query gives |
| `Project.Project.WriteFileDefinitions` | src/server/Project.cpp:470-536 | the two loops add to the batch exactly the changed records and then the file's list, for every order of the maps |
| `Project.Project.DeleteFileDefinedSymbolInfo` | src/server/Project.cpp:1138-1161 | the loop adds to the batch exactly the records of the listed symbols without the file's module |
| `Project.Project.WriteCompiledFile` | src/server/Project.cpp:452-468 | the committed database is the compile's batch applied to the database before |
| `Project.Project.BuildFile` | src/server/Project.cpp:335-355 | refines the protocol's build step: one task, and only when the path is not being parsed and has flags |
| `Project.Project.RebuildFile` | src/server/Project.cpp:311-333 | refines the protocol's rebuild step: erase, then build, unless the path is being parsed |
| `Project.Project.DeleteUnexistFile` | src/server/Project.cpp:1116-1136 | refines the protocol's delete step, with its early return for paths that are not sources; exactly the path leaves the sources, and the remaining ones are saved |
| `Project.Project.HandleMessage` | src/server/Project.cpp:648-667 | refines the protocol's handling of the oldest posted message |
| `Project.Project.Build` | src/server/Project.cpp:287-309 | queues one task for each source that is not excluded, has flags and was not being parsed, saves the list of sources, and takes only build steps of the protocol |
| `Project.Project.ForceSync` | src/server/Project.cpp:1062-1080 | a full synchronisation erases nothing: no record of the indexes changes, the new sources are built and saved; it takes one source step, deletions without effect and builds of the protocol, whatever the workers do; when the reload throws, only the source set changes and nothing is built or saved |
| `Md5Rounds.OptimisedFIsRfcF` | src/util/MD5.cpp:14-22 | the F of the code equals the F of section 3.4 of RFC 1321 on all words |
| `Md5Rounds.OptimisedGIsRfcG` | src/util/MD5.cpp:14-22 | the G of the code equals the G of section 3.4 of RFC 1321 on all words |
| `Md5Rounds.WordGivesBytes` | src/util/MD5.cpp:42-52 | a word read from four bytes gives them back by shifting and masking, the first byte lowest |
| `Md5Rounds.RotateIsCircular` | src/util/MD5.cpp:29-32 | the two shifts and the or are the circular left shift for every amount in use |
| `Md5Rounds.MacroIsStored` | src/util/MD5.cpp:29-32 | the STEP macro stores the value that section 3.4 gives for the operation, its sums taken in another order |
| `Md5Rounds.FourSteps` | src/util/MD5.cpp:60-164 | four operations with the roles of the registers written out are four steps of the reference, back in the original roles |
| `Md5Rounds.BodyBlock` | src/util/MD5.cpp:72-158 | the 64 unrolled steps with their literal indices, constants and shifts compute the compression function of section 3.4 for every block and register state |
| `Md5.CounterAdvances` | src/util/MD5.cpp:180-184 | the two counter updates with the carry keep hi*2^29 + lo equal to the byte count modulo 2^61 |
| `Md5.LengthBytes` | src/util/MD5.cpp:228-236 | the eight stored bytes are the length in bits modulo 2^64, lowest byte first |
| `Md5.PaddedInjective` | src/util/MD5.cpp:210-238 | messages shorter than 2^61 bytes have the same padded blocks if and only if they are equal |
| `Md5.AbsorbConcat` | src/util/MD5.cpp:60-164 | absorbing a whole number of blocks and then more data equals absorbing both at once |
| `Md5.Context.Init` | src/util/MD5.cpp:166-174 | the fresh context is that of the empty message |
| `Md5.Context.Body` | src/util/MD5.cpp:60-164 | the do-while loop absorbs all blocks, first to last |
| `Md5.Context.Count` | src/util/MD5.cpp:180-184 | the split counter counts the new bytes, for every size of the call |
| `Md5.Context.Update` | src/util/MD5.cpp:176-208 | any call appends its bytes to the message and keeps the invariant: counters, registers after the whole blocks, and the unprocessed tail in the buffer |
| `Md5.Context.Final` | src/util/MD5.cpp:210-258 | the result is the digest of everything hashed, padded as sections 3.1 and 3.2 of RFC 1321 say, and the context is cleared |
| `Md5.HashInPieces` | src/util/MD5.cpp:176-208 | for every way of cutting a message into calls, empty pieces included, counters, registers and buffered tail equal those of one call on the whole |
| `Md5.Signature` | src/util/MD5.cpp:260-267 | the result is the digest of the key |
| `Md5.FileDigest` | src/util/MD5.cpp:269-285 | the 1024-byte loop, with its last empty read, gives the same digest as hashing the content at once |
| `Md5.FileDigestText` | src/util/MD5.cpp:287-300 | the stored text is the 32 digits of the digest |
| `Md5.HexTextInjective` | src/util/MD5.cpp:287-294 | different digests have different texts, so comparing the texts compares the digests |
| `KnownAnswers.AbcDigest` | src/util/MD5.cpp:60-258 | the digest of abc is the one in the test suite of RFC 1321, section A.5, through all 64 steps |
| `KnownAnswers.InitialBytes` | src/util/MD5.cpp:166-170 | the initial registers are the byte sequences of section 3.3 of RFC 1321, low-order bytes first |
| `KnownAnswers.DigestText` | src/util/MD5.cpp:287-294 | digests are written in lower-case digits, the high half of a byte first |
| `Gcd.EuclidBezout` | src/boost_parts/boost/rational.hpp:384-390 | the gcd of two numbers is an integer combination of them |
| `Gcd.CommonDivides` | src/boost_parts/boost/rational.hpp:384-390 | every common divisor divides the gcd, so it is the greatest |
| `Rational.NormalUnique` | src/boost_parts/boost/rational.hpp:394-400 | two normalised fractions with the same value have the same numerator and denominator |
| `Rational.SumIsNormal` | src/boost_parts/boost/rational.hpp:491-524 | the reduced-gcd scheme gives the exact sum in lowest terms, zero sums included |
| `Rational.ProductIsNormal` | src/boost_parts/boost/rational.hpp:545-558 | cross-cancelled products of normalised fractions are exact and already in lowest terms |
| `Rational.QuotientIsNormal` | src/boost_parts/boost/rational.hpp:560-586 | cross-cancelled quotients are exact and in lowest terms once the sign is moved to the numerator |
| `Rational.Rational.AddAssign` | src/boost_parts/boost/rational.hpp:491-524 | exactly a/b + c/d, normalised, also when the argument is the object itself |
| `Rational.Rational.SubAssign` | src/boost_parts/boost/rational.hpp:526-542 | exactly a/b - c/d, normalised, also when the argument is the object itself |
| `Rational.Rational.MulAssign` | src/boost_parts/boost/rational.hpp:545-558 | exactly the product, normalised |
| `Rational.Rational.DivAssign` | src/boost_parts/boost/rational.hpp:560-586 | fails exactly for a zero divisor and then changes nothing; otherwise exactly the quotient, normalised, negative divisors included |
| `Rational.Rational.MulAssignInt` | src/boost_parts/boost/rational.hpp:279-286 | exactly the product with an integer, normalised |
| `Rational.Rational.DivAssignInt` | src/boost_parts/boost/rational.hpp:288-307 | fails exactly for zero and then changes nothing; otherwise exactly the quotient, normalised |
| `Rational.Rational.Normalize` | src/boost_parts/boost/rational.hpp:860-890 | fails exactly for a zero denominator; otherwise the same value in lowest terms with a positive denominator |
| `Rational.Rational.Less` | src/boost_parts/boost/rational.hpp:759-840 | the continued-fraction loop ends and answers exactly whether a/b < c/d, for all integers with positive denominators |
| `Rational.Rational.LessInt` | src/boost_parts/boost/rational.hpp:353-367 | the floor decides the comparison with an integer exactly |
| `Rational.Rational.Equals` | src/boost_parts/boost/rational.hpp:842-850 | on normalised fractions equal fields mean equal values, and conversely |
| `Rational.FloorsDecide` | src/boost_parts/boost/rational.hpp:790-836 | different floors decide the order, equal floors leave it to the remainders |
| `Rational.InnerGcdIsGcd` | src/boost_parts/boost/rational.hpp:386-390 | the private recursion on truncated remainders gives the gcd up to sign, for negative arguments too |
| `Rational.IsNormalizedExactly` | src/boost_parts/boost/rational.hpp:402-409 | the private test accepts exactly the normalised pairs |
| `Rational.AddThenSubtract` | src/boost_parts/boost/rational.hpp:491-542 | x += q and x -= q restore x field by field; for q the object itself they leave zero |
| `Rational.MultiplyThenDivide` | src/boost_parts/boost/rational.hpp:545-586 | x *= q and x /= q restore x field by field; for q the object itself they leave one, and for q zero the division fails and leaves zero |
| `Permutation.ApplyPermutation` | src/boost_parts/boost/algorithm/apply_permutation.hpp:40-60 | for every permutation the cycle walk ends with item k equal to the old item at ind[k], the index array the identity, and at most as many swaps as items |
| `Permutation.ApplyReversePermutation` | src/boost_parts/boost/algorithm/apply_permutation.hpp:72-91 | for every permutation the loop ends with the old item k at position ind[k], the index array the identity, and at most as many swaps as items |
| `Permutation.ApplyThenReverse` | src/boost_parts/boost/algorithm/apply_permutation.hpp:40-91 | one after the other on copies of the same indices restores the items |
| `Permutation.ScatterUndoesGather` | src/boost_parts/boost/algorithm/apply_permutation.hpp:40-91 | reordering back along the same indices restores the items |
| `Permutation.GatherUndoesScatter` | src/boost_parts/boost/algorithm/apply_permutation.hpp:40-91 | so does the opposite order of the two |
| `Permutation.ScatterUnique` | src/boost_parts/boost/algorithm/apply_permutation.hpp:72-91 | only one arrangement puts every item where its index says |
| `Permutation.WalkStep` | src/boost_parts/boost/algorithm/apply_permutation.hpp:51-57 | a turn of the inner loop settles one more position and never revisits a settled one |
| `Permutation.SwapFixes` | src/boost_parts/boost/algorithm/apply_permutation.hpp:83-88 | a swap settles the index it follows, disturbs no settled one, and keeps the indices a permutation |
| `MinMax.PositionsUnique` | src/boost_parts/boost/algorithm/minmax_element.hpp:210-260 | each kind of extreme position is unique, so the pairwise functions return what the simple scans return |
| `MinMax.BasicFirstMinElement` | src/boost_parts/boost/algorithm/minmax_element.hpp:210-220 | the position of the first smallest element, or the end for an empty range |
| `MinMax.BasicLastMinElement` | src/boost_parts/boost/algorithm/minmax_element.hpp:222-233 | the position of the last smallest element, or the end for an empty range |
| `MinMax.BasicFirstMaxElement` | src/boost_parts/boost/algorithm/minmax_element.hpp:235-246 | the position of the first largest element, or the end for an empty range |
| `MinMax.BasicLastMaxElement` | src/boost_parts/boost/algorithm/minmax_element.hpp:248-259 | the position of the last largest element, or the end for an empty range |
| `MinMax.BasicMinmaxElement` | src/boost_parts/boost/algorithm/minmax_element.hpp:56-117 | for every strict weak order, first smallest and first largest, with at most floor(3n/2) comparisons |
| `MinMax.BasicFirstMinLastMaxElement` | src/boost_parts/boost/algorithm/minmax_element.hpp:332-377 | first smallest and last largest, with at most floor(3n/2) comparisons |
| `MinMax.BasicLastMinFirstMaxElement` | src/boost_parts/boost/algorithm/minmax_element.hpp:379-422 | last smallest and first largest, with at most floor(3n/2) comparisons |
| `MinMax.BasicLastMinLastMaxElement` | src/boost_parts/boost/algorithm/minmax_element.hpp:424-481 | last smallest and last largest, with at most floor(3n/2) comparisons |
| `MinMax.NearFirstMinEnd` | src/boost_parts/boost/algorithm/minmax_element.hpp:110-114 | the one extra comparison turns the doubtful minimum into the first one |
| `MinMax.NearLastMaxEnd` | src/boost_parts/boost/algorithm/minmax_element.hpp:475-479 | the one extra comparison turns the doubtful maximum into the last one |
| `CompilerFlags.FilterSelects` | src/server/CompilerFlagCache.cpp:61-86 | the filter keeps, in order, exactly the positions that are read as flags of their own, are not in the skip table and are not the absolute source file |
| `CompilerFlags.ArgumentsPresentExactly` | src/server/CompilerFlagCache.cpp:72-78 | the editor never erases past the end if and only if the last string is not a skipped flag that still wants its argument |
| `CompilerFlags.HeadsReadableExactly` | src/server/CompilerFlagCache.cpp:64-86 | an empty string does harm if and only if it is read as a flag of its own rather than swallowed as an argument |
| `CompilerFlags.FilteredIsClean` | src/server/CompilerFlagCache.cpp:61-86 | no flag of the skip table and no absolute source path is left |
| `CompilerFlags.FilterTwice` | src/server/CompilerFlagCache.cpp:61-86 | filtering a second time changes nothing |
| `CompilerFlags.LeadingFlagsEnd` | src/server/CompilerFlagCache.cpp:42-48 | what is dropped at the front is exactly the strings before the first one without a dash |
| `CompilerFlags.FlagList.PruneCompilerFlags` | src/server/CompilerFlagCache.cpp:42-87 | the in-place list editing gives -x c++ for a C++ compiler, followed by the filtered flags behind the compiler |
| `KnownAnswers.Dropped` | src/server/CompilerFlagCache.cpp:26-39 | the seven flags that are dropped alone, the five that are dropped with an argument, and what counts as the source, written out |
| `KnownAnswers.EditedCommand` | src/server/CompilerFlagCache.cpp:42-87 | one command with every case of the editor, and what is left of it |
| `Paths.RelativeResolves` | src/server/CompilerFlagCache.cpp:304-307 | following a relative path from its base leads back to the path, parent steps included |
| `Paths.RelativeTextInjective` | src/server/CompilerFlagCache.cpp:304-305 | two relative paths are never written the same way, so a module name determines its home |
| `KnownAnswers.WrittenPaths` | src/server/CompilerFlagCache.cpp:303-306 | how absolute and relative paths are written |
| `FlagCache.ProjectDirExactly` | src/util/Functions.h:78-90 | the project directory of a path is the nearest directory below the root, at or above the one to start from, that holds a project file; there is none if and only if no directory does or the one to start from is not there |
| `FlagCache.AddKeepsExactly` | src/server/CompilerFlagCache.cpp:335-343 | adding a directory to its parent's module keeps the maps in step if and only if the directory is not the home of a different module that has flags |
| `Paths.HasPrefixExactly` | src/util/Functions.h:47-56 | the textual prefix test accepts the paths at or below the prefix and, besides, exactly those whose name at its last place continues its last name |
| `FlagCache.ModuleInsideExactly` | src/server/CompilerFlagCache.cpp:298-304 | a module that passes the prefix test lies outside the project if and only if its directory is beside the project with a name that continues the project's, and exactly then its name starts with a step to the parent |
| `FlagCache.BesideProjectPasses` | src/server/CompilerFlagCache.cpp:298-304 | a module at /a/bc passes for a project at /a/b |
| `FlagCache.UnmappedTakesNoHome` | src/server/CompilerFlagCache.cpp:335-343 | a directory that is not in the map is nobody's home, so adding one is always safe |
| `FlagCache.RemoveKeeps` | src/server/CompilerFlagCache.cpp:345-378 | removing a directory, a module's home included, always keeps the maps in step |
| `FlagCache.RemovalExactly` | src/server/CompilerFlagCache.cpp:345-378 | a removal takes the directory, and with a module's home exactly the directories and flags of that module; every other directory keeps its module and every other module its flags |
| `FlagCache.RemovalChangesExactly` | src/server/CompilerFlagCache.cpp:251-278 | a lookup changes with a removal if and only if it found flags and its directory is the one removed or belongs to the module whose home that is; it then finds none |
| `FlagCache.PassedOverExactly` | src/server/CompilerFlagCache.cpp:284-301 | an excluded file and one below the build directory are passed over; any other throws if and only if it has no project directory inside the project |
| `FlagCache.CommandRecords` | src/server/CompilerFlagCache.cpp:303-332 | a command maps its directory to its module; the first command of a module also maps the module's home and gives it the edited flags with the system flags behind them; nothing else changes |
| `FlagCache.ParseKeepsExactly` | src/server/CompilerFlagCache.cpp:281-333 | one command of the compilation database, even one that throws, keeps the maps in step if and only if its file is not itself a directory with a project file and it does not lack the flags that its module still needs |
| `FlagCache.LoadKeepsExactly` | src/server/CompilerFlagCache.cpp:203-242 | the maps are in step before and after every command of a load, even one that throws, if and only if it comes to no command of these two kinds |
| `FlagCache.LoadEndsExactly` | src/server/CompilerFlagCache.cpp:177-242 | at the end of a load the maps are in step if and only if no directory was last mapped by a command whose file is a project directory, unless as the home of a module first met later, and the load did not stop at an entry that lacks its flags |
| `FlagCache.UndisturbedEnds` | src/server/CompilerFlagCache.cpp:177-242 | a load that meets the condition for every command meets the one for its end |
| `FlagCache.FlagsOfFirstCommand` | src/server/CompilerFlagCache.cpp:203-240 | the flags that a load gives to a module are the edited flags of the first command of that module, with the system flags behind them |
| `FlagCache.LoadFindsSources` | src/server/CompilerFlagCache.cpp:203-242 | a load finds exactly the files that are not excluded of the commands that it comes to: all of them, or up to and including the one that throws |
| `FlagCache.RunsKeepExactly` | src/server/CompilerFlagCache.cpp:147-378 | over every run of reloads, directory adds and removes the maps are in step after every event (every mapped directory's module has flags, every module with flags maps its own home to itself, and every module's home is at or above its directories) if and only if every reload ends in step and no add takes the home of another module |
| `FlagCache.FlagsExactlyWhereMapped` | src/server/CompilerFlagCache.cpp:251-278 | after every such run flags are found for exactly the paths in mapped directories, and they are those of a module whose home is at or above the directory |
| `FlagCache.CompilerFlagCache.GetProjectDir` | src/util/Functions.h:78-90 | the climbing loop finds the nearest project directory below the root, and none when the directory it starts from is not there |
| `FlagCache.CompilerFlagCache.ParseFileCommand` | src/server/CompilerFlagCache.cpp:281-333 | the updates of both maps are those of the specification; when it throws before them nothing changes, and when the entry lacks its flags both directories are mapped and the module gets none |
| `FlagCache.CompilerFlagCache.LoadCommands` | src/server/CompilerFlagCache.cpp:203-242 | the loop over the commands, up to the first one that throws and with what that one wrote |
| `FlagCache.CompilerFlagCache.Rebuild` | src/server/CompilerFlagCache.cpp:147-242 | clears and reloads both maps; changes nothing when the build system fails first, throws when no command file exists, and swallows what a command throws while the JSON file is read, half-written maps included; this is the reload of the runs |
| `FlagCache.CompilerFlagCache.GetModuleName` | src/server/CompilerFlagCache.cpp:260-278 | relative and absolute paths name the module of the same directory, or none |
| `FlagCache.CompilerFlagCache.GetFileCompilerFlags` | src/server/CompilerFlagCache.cpp:251-258 | returns the flags of the directory's module, or none |
| `FlagCache.CompilerFlagCache.AddDirToModule` | src/server/CompilerFlagCache.cpp:335-343 | maps the directory and changes nothing else |
| `FlagCache.CompilerFlagCache.TryRemoveDir` | src/server/CompilerFlagCache.cpp:345-378 | unmaps the directory, and with a home exactly the directories and flags of that module; all other directories and flags stay; reports whether it was mapped |
| `FlagCache.CompilerFlagCache.HandleDirectoryCreated` | src/server/Project.cpp:924-939 | a new directory joins the module of its parent, as in the runs |
| `Tokenizer.SplitText` | src/boost_parts/boost/token_functions.hpp:459-529 | fields and delimiters put back together are the text, and no field has a delimiter in it |
| `Tokenizer.SplitUnique` | src/boost_parts/boost/token_functions.hpp:459-529 | there is only one way to take text apart into delimiter-free fields and delimiters |
| `Tokenizer.KeepCount` | src/boost_parts/boost/token_functions.hpp:492-526 | keeping empty tokens there is exactly one field more than delimiters, plus one token for each kept delimiter |
| `Tokenizer.KeepConcat` | src/boost_parts/boost/token_functions.hpp:492-526 | the tokens run together are the text without the delimiters that are not kept |
| `Tokenizer.DropConcat` | src/boost_parts/boost/token_functions.hpp:470-491 | dropping empty tokens, no token is empty and together they are the text without the dropped delimiters |
| `Tokenizer.DropIsKeepWithoutEmpties` | src/boost_parts/boost/token_functions.hpp:459-529 | the two modes differ only in the empty tokens, if and only if no delimiter in the text is both kept and dropped |
| `Tokenizer.ReuseLosesField` | src/boost_parts/boost/token_functions.hpp:457 | a used separator, whose reset does nothing, loses the first empty field if and only if the text starts with a delimiter |
| `Tokenizer.CharSeparator.Call` | src/boost_parts/boost/token_functions.hpp:459-529 | each call returns the next of the tokens that remain and leaves the state for the rest; some calls only flip the flag, yet a measure always falls; both ways of assigning the token agree |
| `Tokenizer.TokenIterator.constructor` | src/boost_parts/boost/token_iterator.hpp:70-83 | the iterator starts at the first token, and yields none for an empty text |
| `Tokenizer.TokenIterator.Increment` | src/boost_parts/boost/token_iterator.hpp:53-56 | moves to the rest of the tokens |
| `Tokenizer.Tokenize` | src/boost_parts/boost/token_iterator.hpp:53-75 | running the iterator to its end terminates and yields every token |
| `Hex.NumeralNumber` | src/boost_parts/boost/algorithm/hex.hpp:58-66 | the digits of an element stand for its value modulo the range of its type, negative values in two's complement |
| `Hex.NumberNumeral` | src/boost_parts/boost/algorithm/hex.hpp:58-76 | writing the number that a text of digits stands for gives the text in the digits of the table |
| `Hex.DigitsExactly` | src/boost_parts/boost/algorithm/hex.hpp:68-76 | the characters of the two tables are digits and no other character is |
| `KnownAnswers.HexDigits` | src/boost_parts/boost/algorithm/hex.hpp:149-172 | the two tables written out, and one text written and read |
| `Hex.EncodeOne` | src/boost_parts/boost/algorithm/hex.hpp:58-66 | filling the buffer backwards gives the numeral of the element |
| `Hex.DecodeOne` | src/boost_parts/boost/algorithm/hex.hpp:122-136 | reads one element without wrap-around, or names the first bad character or the early end |
| `Hex.HexText` | src/boost_parts/boost/algorithm/hex.hpp:149-155 | the text is the numerals of the elements in order |
| `Hex.Unhex` | src/boost_parts/boost/algorithm/hex.hpp:243-248 | the elements before the first problem, and which problem it is |
| `Hex.UnhexSucceedsExactly` | src/boost_parts/boost/algorithm/hex.hpp:243-248 | decoding succeeds if and only if all characters are digits in whole groups; digits with a short last group, and only they, give the not-enough-input error |
| `Hex.UnhexOfHex` | src/boost_parts/boost/algorithm/hex.hpp:149-155 | decoding what was encoded, with either table, gives the elements modulo the range of the type |
| `Hex.UnsignedRoundTrip` | src/boost_parts/boost/algorithm/hex.hpp:149-172 | unhex(hex(s)) = s for unsigned elements of every byte width, upper or lower case |
| `Hex.HexOfUnhex` | src/boost_parts/boost/algorithm/hex.hpp:243-248 | hex(unhex(h)) is h in upper case and hex_lower(unhex(h)) is h in lower case, for every valid h |

## Left out

- libclang parsing and the AST visitor: the defined and referred symbols of a unit are arbitrary inputs, each definition at the path of the compiled file.
- LevelDB and protobuf bytes, failed database writes and undecodable records: records are values in maps, and encoding is modelled down to the lists that a message holds.
- inotify, asio sockets and timers, the cmake call, watch lists: events and outcomes are parameters.
- Session framing, request handlers, XML configuration, environment expansion, logging, the readline shell.
- The home record and how a project is loaded (`LoadProjectInfo`, `ChangeHome`): the keys of both single records are modelled, the source list that `WriteSrcPath` stores is a field of the project object rather than a record, and the home directory does not change during a run.
- Exceptions thrown in the middle of an operation, apart from the failures of `ParseFileCommand`, `Rebuild`, `ForceSync`, the rational operators and the hex decoder: they end the run.
- Symbolic links: paths are lists of names and each is its own canonical form.  The regular expression for C++ compilers and the exclusion test are arbitrary predicates.
- Overflow of the integers in rational, with normalize's check for a denominator that has no negation: mathematical integers.  The gcd it calls is defined in a header that is not part of this model; a non-negative gcd is defined here.
- The sine table of MD5 is taken as literals; `block[16]` of the context, used on other processors only, is left out, and so is a file that cannot be opened.
- Pointer-terminated hex input, character types other than char, input iterators that cannot be compared: a text is a sequence of characters.
- Remaining Boost headers: they wrap code that is not part of this model, or hold algorithms of one short loop.
- The two loops of `WriteFileReferences` and of `WriteFileDefinitions` are methods of their own, and so are the branches of the separator call; a set stands for the keys of a map that are still to be visited, so the order of iteration is arbitrary rather than sorted; `RebuildOrder` says what the sorted order adds.
- The body of the worker function is steps of the protocol, not a method: what matters is its interleaving with the main thread.
- Md5.HashInPieces: needs a whole message shorter than 2^64 bytes, because it hashes the whole in one call whose size is a 64-bit number; each piece has the same limit.
- The module of each directory is fixed during a run of the build protocol, as the one in force when compiles commit; how directories change modules is the subject of `FlagCache` alone.
