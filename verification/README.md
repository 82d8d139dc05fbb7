# A verified model of the teaching OS: file system, searches, shell path, processes, screen

The repository is a small 32-bit teaching operating system. This project models the parts of it that
keep state over many calls, and proves what they keep.

* **The FAT store** (`src/fat32.c`): 512 clusters of 2 KiB, one allocation table cached in memory and mirrored in
  cluster 1, directories of 64 packed 32-byte entries. `Layout` is the byte format, `DiskBytes` says where each byte
  is, `Chains` the allocation table as linked chains, `Store` each driver call as one step on disk and table,
  `Invariant` what every reachable store satisfies, `Safety` that each call keeps it and exactly when one does not,
  `Counting` where all cells go, `Refinement` and `Runs` that the driver behaves as a map from (directory, name,
  extension) to bytes over every run, `Driver` the calls themselves, as methods with the loops of the source on a disk
  and a table changed in place, and `Histories` which stores runs from a fresh disk really reach, and on which of them
  single calls do damage.
* **The two string searches** (`Matching`), on arrays, with the failure table, its cost, and the bad-character table.
* **The walks that print and take back** (`Trees`, `Outline`, `DiskTree`, `Buffers`, `Walks`): the listing, the search
  for a name and the depth-limited search for a text, on one shared buffer, index, level and found flag. `Trees` says
  on trees as values what they print, and `Outline` reads it back; `DiskTree` reads the tree off a disk; `Buffers`
  says what happens to each cell of the buffer; `Walks` has the recursive methods.
* **The shell's path** (`Shell`): `cd`, the way down and back up of `cp`, and the path resolution of `mv`.
* **Processes** (`Processes`): process list, page directory pool, scheduler steps.
* **The text screen** (`Screen`) as a window on an endless page.
* **Integers as text** (`Numbers`), printed and parsed in 32-bit arithmetic.

Code that changes things in place is a class or a method over arrays with loops, proved against functions on values;
the theorems are lemmas about these functions. The bookkeeping of the store invariant is a ghost `Shape`: which directory
and slot holds the entry of a chain head, which head owns a cell, and how deep a directory lies.

Some promises are false of the code as it stands, and each has its exact condition here:

* `write` keeps the store in order if and only if a call that is not rejected has a free slot in the directory, a free
  cluster and a size below 2^31 (`Safety.WriteSafeIff`). In a full directory the new entry overwrites the directory's own
  first entry; with no free cluster a new directory is written over cluster 0. `Histories` has a reachable store and a
  call for each of the three: `HugeWriteBreaks`, `NoClusterDirectoryBreaks`, `FullDirectoryBreaks`. The same condition at
  the end of its path decides about `cp` (`Shell.CopySafeIff`).
* `delete` keeps it if and only if it does not go through with the first entry of a table, which happens for an empty
  root only, or with the key of zeros, which unused entries carry (`Safety.DeleteSafeIff`; on a fresh disk
  `Histories.RootDeleteBreaks` and `Histories.BlankDeleteBreaks`).
* `process_destroy(0)` keeps the process state in order if and only if no slot is dead or no live process has the
  directory that the first dead slot last had (`Processes.DestroyZeroIff`); a run after which one has is in
  `Processes.DestroyZeroBreaks`.
* The scheduler picks live processes only if and only if no process has ended since boot: the count that it divides by
  never goes down (`Processes.RunCompactIff`).
* The memory check of `process_create_user_process` passes if and only if the program fits in seven page frames beside
  its stack or its size is just below 2^32, where the 32-bit arithmetic wraps (`Processes.MemoryCheckIff`).
* `int_to_str` prints a decimal number if and only if the number is not -2^31 (`Numbers.DecimalIff`).
* A directory line is taken back whole if and only if there is no line feed in the name (`Buffers.RetreatIff`), and
  `cd ..` takes the last name off the path text if and only if there is no slash in it (`Shell.UnwoundIff`).

Where comment and code disagree, the model follows the code: `read_directory` fills the driver's own table and not the
buffer of the request; the page directory comment asks for one kernel entry and the code sets two, the first of which
the kernel has opened to users before the first process is made; the three-way branch on the extension in the listing
and in the name search orders it against "dir" with `memcmp` and does not test for files; the name search compares seven
bytes of a name although the field has eight.

## Model

| member | source | states |
|---|---|---|
| Bytes.MemCmp | src/stdlib/string.c:22-35 | 1 exactly when after some equal bytes the first region has the larger byte, -1 exactly when it has the smaller one, 0 exactly for equal regions |
| Bytes.MemCpyDown | src/stdlib/string.c:13-20 | copying upwards inside one memory to a lower address moves the old bytes even when the regions overlap, and nothing else changes |
| Matching.BoundingFunction | src/fat32.c:963-976 | pi[i] is the length of the longest proper border of the first i + 1 pattern bytes, with at most m fallback steps in all |
| Matching.Scan | src/fat32.c:978-991 | with that table the scan finds the pattern exactly when it occurs, with at most n fallback steps in all |
| Matching.KnuthMorrisPratt | src/fat32.c:958-991 | true exactly when the pattern is not empty and the text is something, the pattern, and something again; fallbacks bounded by both lengths |
| Matching.ShiftIsSafe | src/fat32.c:1010-1028 | no alignment that the bad-character shift skips can match |
| Matching.BoyerMoore | src/fat32.c:993-1030 | true exactly when the text is something, the pattern, and something again (always for the empty one); the loop ends |
| Layout.EntryRoundTrip | src/header/filesystem/fat32.h:76-93 | decoding the 32 bytes of an entry gives the entry |
| Layout.EntryBytesRoundTrip | src/header/filesystem/fat32.h:76-93 | every 32 bytes are the encoding of the entry they decode to |
| Layout.TableRoundTrip | src/header/filesystem/fat32.h:96-99 | a directory table survives being written to its cluster and read back |
| Layout.FatRoundTrip | src/header/filesystem/fat32.h:51-54 | so does the allocation table |
| DiskBytes.EntryInCluster | src/header/filesystem/fat32.h:76-99 | entry i is at byte 32 * i: name 0-7, extension 8-10, attribute 11, mark of use 12, high half of the cluster number 20-21, low half 26-27, size 28-31, numbers with the low byte first |
| DiskBytes.CellInCluster | src/header/filesystem/fat32.h:51-54 | cell i of the allocation table is at byte 4 * i, the low byte first |
| DiskBytes.FormattedCells | src/fat32.c:249-257 | on a formatted disk cells 0, 1 and 2 hold their marks, all others are free, and cluster 1 holds the table |
| DiskBytes.FormattedSector | src/fat32.c:7-90 | its first block is the signature byte by byte, and the rest of cluster 0 and clusters 3 to 511 are as before |
| DiskBytes.FormattedRoot | src/fat32.c:259-262 | its root is a directory in use that names itself as its parent, and otherwise zero from byte 32 on |
| DiskBytes.BootBranches | src/fat32.c:233-279 | boot formats the disk as soon as one of the 512 signature bytes is wrong, and otherwise takes the table from cluster 1 and leaves the disk alone |
| DiskBytes.WrittenBytes | src/fat32.c:515-528 | a write enters name, extension, kind, mark, size and the lowest free cell in the first entry past the own one that is not marked, and changes no other byte of the directory |
| DiskBytes.DeletedBytes | src/fat32.c:589-593 | a delete blanks name, extension and mark of the entry with that key, and changes no other byte of the directory |
| DiskBytes.NotADirectory | src/fat32.c:319-544 | a parent cluster whose byte 11 is not the attribute of a directory is refused with -1 by all four calls |
| Chains.LinkMakesChain | src/fat32.c:490-514 | linking distinct free cells one after the other makes exactly the chain of these cells |
| Chains.ClearUndoesLink | src/fat32.c:490-588 | freeing the cells of that chain gives back the allocation table cell for cell |
| Chains.FreeScansAgree | src/fat32.c:451-500 | the scan for free cells from 0 and the one from 2 find the same cells, because cells 0 and 1 are reserved |
| Safety.FormatEstablishesInv | src/fat32.c:245-263 | formatting any disk gives a store in order: signature, mirrored table, chains, tree |
| Safety.BootRestores | src/fat32.c:233-279 | the boot step on the disk of a store in order takes the load branch and gives back that store, table included |
| Safety.CountIsBlocks | src/fat32.c:414-417 | below 2^31 the signed 32-bit ceiling division is the number of clusters the bytes fill |
| Safety.CountOfHugeSize | src/fat32.c:414-417 | from 2^31 on its exact value, which is at most one cluster or more than any table has, and never what the bytes would fill |
| Invariant.AddKeepsInv | src/fat32.c:465-528 | linking free cells to a chain and entering it under a new key keeps chains disjoint, acyclic and complete, and directories a tree |
| Invariant.DropKeepsInv | src/fat32.c:559-593 | blanking an entry without children and freeing its chain keeps all that |
| Safety.WriteKeepsInv | src/fat32.c:425-531 | a write that goes through and fits keeps the store in order |
| Safety.WriteSafeIff | src/fat32.c:425-531 | for every store in order, the store after a write is in order if and only if the call is rejected or has a free slot, a free cluster and a size below 2^31 |
| Safety.DeleteKeepsInv | src/fat32.c:539-598 | a delete past the first entry keeps the store in order |
| Safety.DeleteSafeIff | src/fat32.c:539-598 | for every store in order, the store after a delete is in order if and only if the call did not go through with the first entry, which it can only in an empty root, or with the key of zeros |
| Safety.BlankKeyBreaks | src/fat32.c:581-588 | a delete of the key of zeros frees a reserved cell or a cell that some entry in use owns, whatever the unused entry it finds last held |
| Safety.DeleteUndoesWrite | src/fat32.c:425-598 | a delete after a write of the same key succeeds, gives back the allocation table cell for cell and every directory table but for the stale rest of one unused entry |
| Counting.CellsAreConserved | src/fat32.c:449-528 | free cells, the chain lengths of all entries and the three reserved cells make up the table: none leaks, none is counted twice |
| Counting.FreeFromMap | src/fat32.c:449-463 | the number of free clusters follows from the sizes in the map alone |
| Counting.RoomFromMap | src/fat32.c:515-523 | a directory has a free slot exactly when the map has fewer than 63 keys in it |
| Refinement.WriteRepresents | src/fat32.c:465-528 | a write that fits adds one key to the map with the first size bytes of its data, and changes no other key |
| Refinement.DeleteRepresents | src/fat32.c:559-593 | a delete takes that one key out of the map and changes no other |
| Runs.ReadAgrees | src/fat32.c:362-412 | a read answers with the code the map gives, and on success its buffer starts with exactly the bytes stored under the key |
| Runs.WriteAgrees | src/fat32.c:425-463 | a write answers with the code the map gives |
| Runs.DeleteAgrees | src/fat32.c:539-580 | a delete answers with the code the map gives |
| Runs.StepRefines | src/fat32.c:362-598 | each legal call is one step of the map with the same answer, and failing calls change nothing |
| Runs.RunRefines | src/fat32.c:362-598 | so does every run, by induction on the calls |
| Runs.FormattedRunRefines | src/fat32.c:245-598 | every run from a freshly formatted disk, whatever was on it, answers as the map that starts empty |
| Runs.RebootKeepsMap | src/fat32.c:269-279 | a reboot gives back the same store and the same map |
| Runs.WriteThenDeleteKeepsMap | src/fat32.c:425-598 | a write followed by the delete of its key leaves the map as it was |
| Runs.CodesFromMap | src/fat32.c:362-598 | the codes one by one for a key of a live directory: absent, 3 for a read, 1 for a delete, and for a write 0 exactly when there are as many free cells as the size fills; a file, 0 or 2 by the buffer size; a directory, 1, and for a delete 2 exactly when some key is in it |
| Runs.OwnKeyCodes | src/fat32.c:362-598 | the key of a directory's own first entry reads and writes as 1, and deletes as 2 unless it is the empty root |
| Runs.ReadAfterWrite | src/fat32.c:362-531 | after a write that fits its key reads back the data from the first byte on, 2 into a buffer too small, 1 for a new directory, and every other key reads as before |
| Runs.ReadAfterDelete | src/fat32.c:362-598 | after a delete its key reads as 3, and every other key of the directories left reads as before |
| Histories.StepInOrder | src/fat32.c:362-598 | each legal call that uses "dir" exactly for directories keeps order, naming convention and map together |
| Histories.FormattedRunInOrder | src/fat32.c:245-598 | every run of such calls from a freshly formatted disk ends in a store in order, which is what walks and shell ask for, and it stands for the map of the run |
| Histories.RootDeleteBreaks | src/fat32.c:539-598 | on a fresh disk, deleting the root by its own name succeeds and leaves no store in order |
| Histories.BlankDeleteBreaks | src/fat32.c:539-598 | so does deleting the key of zeros |
| Histories.HugeWriteBreaks | src/fat32.c:449-463 | on a fresh disk, a write of size 2^32 - 1 succeeds with one cluster and leaves no store in order |
| Histories.NoClusterDirectoryBreaks | src/fat32.c:465-489 | after one legal file of 509 clusters, making a directory succeeds and leaves no store in order |
| Histories.FullDirectoryBreaks | src/fat32.c:517-528 | after 63 legal files in the root, one more succeeds and leaves no store in order |
| Driver.FatDriver.CreateFat32 | src/fat32.c:245-263 | the loops leave the formatted store, in order, whatever the disk held |
| Driver.FatDriver.InitializeFilesystem | src/fat32.c:269-279 | leaves what the boot step gives: the formatted store, or the disk with its table loaded |
| Driver.FatDriver.ReadDirectory | src/fat32.c:319-354 | all four result codes, and the table of the directory found in the driver's buffer |
| Driver.DirectoryLookup | src/fat32.c:319-354 | in a live directory the codes by the entries with that key, and what is found is the child of that name, whose parent is that directory; under its own key a directory finds its parent |
| Driver.FatDriver.Read | src/fat32.c:362-412 | all codes of the step, and on success the clusters of the chain in order |
| Driver.FatDriver.ReadChain | src/fat32.c:400-405 | the do-while loop ends and collects the whole chain of a live entry |
| Driver.FatDriver.MoveToChildDirectory | src/fat32.c:125-141 | the cluster of the first matching entry from the second slot on, 0 when there is none |
| Driver.FatDriver.MoveToParentDirectory | src/fat32.c:143-149 | for a live directory the live directory that holds its entry, one level up, and the root for itself |
| Driver.FatDriver.Write | src/fat32.c:425-531 | code and new state are those of the step in every case, misfits included; a call that fits leaves a valid driver |
| Driver.FatDriver.FreeChain | src/fat32.c:581-588 | the loop that frees while it follows ends and empties exactly the cells of the chain |
| Driver.FatDriver.Delete | src/fat32.c:539-598 | code and new state are those of the step in every case; unless the call goes through with a first entry or the key of zeros the driver stays valid |
| Trees.NoHitNoText | src/fat32.c:1064-1105 | a search without a hit leaves no text: every directory line it printed is taken back |
| Trees.EnginesAgree | src/fat32.c:1043-1292 | for every non-empty pattern both engines hit the same nodes, leave the same text and write the same cells on the way |
| Trees.TextIsPrunedPreOrder | src/fat32.c:1043-1162 | for every tree and limit the text left is the pre-order of the tree pruned to the hits and the directories above them, and at the limit to the directories that come after a hit among their siblings |
| Trees.KeptIsHit | src/fat32.c:1043-1162 | in trees within the limit the hits alone decide |
| Trees.PrunedIsKept | src/fat32.c:1043-1162 | the pruned tree has exactly the nodes that stay, each once and in order |
| Trees.TextKeptIff | src/fat32.c:1043-1162 | above the limit a node stays if and only if it is, or has below it within the limit, a .txt file whose text holds the pattern |
| Trees.TextKeptAtLimitIff | src/fat32.c:1043-1162 | at the limit a file stays if and only if it matches, and a directory if and only if a file before it in the same directory does |
| Trees.NameKeptIff | src/fat32.c:795-956 | in a name search a node stays if and only if it has, or something below it has, that name, and an extension above "dir" if it is a file |
| Trees.PeakWithinPreOrder | src/fat32.c:1043-1162 | no search reaches further into its buffer than the whole tree printed as it is |
| Trees.FoundIffSomeFile | src/fat32.c:1043-1162 | the text search finds something if and only if a path within the limit leads to a file with the extension "txt" whose text holds the pattern, which for Knuth-Morris-Pratt must not be empty |
| Trees.FoundIffSomeName | src/fat32.c:795-956 | the name search finds something if and only if a path leads to a directory, or a file whose extension is above "dir" byte by byte, with those first seven bytes of its name |
| Trees.NoNewlinesIsPlain | src/fat32.c:1093-1105 | names without line feeds meet what the searches ask of the lines they take back |
| Trees.ListedNameIff | src/fat32.c:697-706 | the listing prints the name itself exactly when the name has a NUL within its eight bytes or the extension is empty |
| Trees.TextEndsLine | src/fat32.c:795-1292 | whatever a search leaves consists of whole lines, which is what the erasing loop relies on |
| Outline.ListingReadsBack | src/fat32.c:659-744 | the listing, read line by line, gives back names, slashes and extensions of all nodes at their depths, in pre-order |
| Outline.NameSearchReadsBack | src/fat32.c:795-956 | so does what a name search leaves for the nodes that stay |
| Outline.NodeHasRow | src/fat32.c:659-744 | every node has its row, at a depth one less than the length of the path to it |
| Outline.OneRowEach | src/fat32.c:659-744 | there are no more rows than nodes |
| Outline.TextMatchIsPrinted | src/fat32.c:1115-1162 | every match of a text search is printed as blanks for its depth, name, ".txt", a blank, the text and a line feed |
| Outline.NameMatchIsPrinted | src/fat32.c:840-956 | every match of a name search that is not below another one is printed as blanks, name, a slash or the extension, and a line feed |
| Buffers.AnswerShape | src/fat32.c:785-793 | after a search the buffer starts with the text, is blank behind it up to the end of the cleared region, and is as before behind that and the reach of the search |
| Buffers.SearchesLeaveSameBytes | src/fat32.c:1033-1173 | for every tree, buffer and non-empty pattern the two searches leave identical bytes |
| Buffers.RetreatIff | src/fat32.c:1093-1105 | the erasing loop goes back to the start of a directory line if and only if there is no line feed in the name |
| DiskTree.ChildIsDeeper | src/fat32.c:659-744 | an entry with extension "dir" leads to a directory of the tree one level down, which is what makes the walks end |
| DiskTree.TreeIsEntries | src/fat32.c:659-744 | the tree of a directory is its entries in use past the first, in their order, with their names, kinds, extensions and stored bytes |
| DiskTree.WriteKeepsConvention | src/user-shell.c:236-266 | requests that use "dir" exactly for size 0 keep extension and kind of every entry in agreement |
| DiskTree.DeleteKeepsConvention | src/fat32.c:559-593 | so does every delete past the first entry |
| Walks.Walker.AllListDirContent | src/fat32.c:659-744 | on every store in order it ends and appends the pre-order listing of the tree, three blanks a level |
| Walks.Walker.EraseLine | src/fat32.c:1093-1105 | goes back to the cell behind the newline before the line's own one, and blanks what it passes and nothing else |
| Walks.Walker.DepthLimitedSearch | src/fat32.c:1043-1292 | leaves text, index, flag and every buffer cell as the query on the tree says; above the limit it returns with all of them untouched |
| Walks.Walker.FindAndPrintPath | src/fat32.c:795-956 | the same for the name search, with the flag right although later siblings reset it |
| Walks.Walker.ShortName | src/fat32.c:747-764 | what is compared is the name cut to seven bytes |
| Walks.Walker.Print | src/fat32.c:651-657 | the whole listing from the first cell on and every cell behind it as before; read back it is the outline of the tree |
| Walks.Walker.PrintPathToDir | src/fat32.c:785-793 | found exactly when a directory, or a file with an extension above "dir", has the name in its first seven bytes; the buffer starts with the text of the query and is its answer over 255 cleared cells |
| Walks.Walker.SearchDls | src/fat32.c:1033-1173 | found exactly when a file with extension "txt" at most ten levels down holds the pattern; the buffer starts with the text of the query and is its answer over 1024 cleared cells |
| Shell.ChildThenParent | src/fat32.c:114-149 | the child found in a directory names that directory as its parent and carries the name it was found by |
| Shell.SpelledIsResolved | src/user-shell.c:160-212 | resolving the names of a path from the root leads to the one directory the path stands for |
| Shell.SpellsFrame | src/user-shell.c:236-266 | a path keeps its meaning as long as the first entries of the directories stay |
| Shell.WriteKeepsPaths | src/user-shell.c:236-266 | a write that fits leaves them all as they are |
| Shell.ShellState.Cd | src/user-shell.c:160-212 | ".." drops the last name and leads where the rest of the path does, a directory name is added and entered, anything else changes nothing; text, length and cluster stay those of one path |
| Shell.UpUndoesDown | src/user-shell.c:160-212 | cd ".." after a cd that found its directory gives back path and cluster |
| Shell.UpLeadsToParent | src/user-shell.c:162-177 | cd ".." stays at the root, and elsewhere leads to where the path without its last name resolves to |
| Shell.PaddedText | src/user-shell.c:182-188 | the name asked for is the argument cut to eight bytes with NULs behind it |
| Shell.PathTextSplits | src/user-shell.c:193-203 | the path text split at its slashes is an empty part, the names, and an empty part |
| Shell.CdAllResolves | src/user-shell.c:160-212 | after any series of cds the cluster is the one that the names of the path lead to from the root |
| Shell.UnwoundIff | src/user-shell.c:169-176 | unwinding the text takes off exactly the last component if and only if there is no slash in it |
| Shell.ShellState.EraseComponent | src/user-shell.c:169-176 | the loop leaves the unwound text, whatever the text |
| Shell.SplitByFirst | src/user-shell.c:119-145 | the part before the separator is copied out and the rest is moved to the front |
| Shell.ComponentsMakeUp | src/user-shell.c:119-145 | the components of a path have no slash and make up the path again |
| Shell.ComponentsOfJoined | src/user-shell.c:119-145 | and they are the only such parts |
| Shell.ShellState.Descend | src/user-shell.c:386-413 | counts exactly the steps that worked; ends where the names resolve to, or reports 2 when they do not |
| Shell.ShellState.CopyInto | src/user-shell.c:384-437 | valid or failing at any component, path text, length and cluster end as they began; where the path resolves and the write is accepted, name and extension read back the data there and the map has just this file more, and otherwise the store is as it was |
| Shell.CopyIsRead | src/user-shell.c:426-430 | the write at the end: its key reads back the data, and every map of the store before gives one of the store after with that file added |
| Shell.CopySafeIff | src/user-shell.c:384-437 | the store after a copy is in order if and only if the path leads nowhere or the write at its end is rejected or fits |
| Shell.ShellState.SearchClusterResolvePath | src/user-shell.c:686-717 | gives the cluster where cds along all components but the last end, ".." included and failing ones skipped, which the resulting path resolves to, and restores path, cluster and argument |
| Shell.WalkIsResolve | src/user-shell.c:686-717 | where every component is a directory that cluster is the one the names resolve to |
| Shell.WalkIsCds | src/user-shell.c:686-717 | a walk along any components goes where the same cds go |
| Processes.PagesAreFrames | src/process.c:54-55 | within the limit the frames asked for are one for the stack and those that the bytes of the program fill |
| Processes.MemoryCheckIff | src/process.c:54-59 | the memory check passes if and only if the program fits in seven frames beside the stack, or its size is so close to 2^32 that the sum wraps or counts as a small negative number; the count of free frames never decides |
| Processes.PagesOfHugeSize | src/process.c:54-55 | the sizes near 2^32 that pass ask for one frame or none |
| Processes.SlotExists | src/process.c:21-28 | a creation that passes the count check always finds an inactive slot |
| Processes.PagesMakeTable | src/process.c:110-122 | on a blank directory the writes of a creation make exactly the two entries of the kernel's own directory and the pages of the process |
| Processes.CreateKeepsInv | src/process.c:39-140 | creation keeps the invariant: live processes never more than the count, numbers and directories pairwise distinct, directories used and exactly mapped, unused ones blank |
| Processes.DestroyKeepsInv | src/process.c:148-163 | so does destroying any number but 0, and it frees one used directory of a live process or changes nothing |
| Processes.SaveKeepsInv | src/scheduler.c:40-45 | so does saving a context, which keeps the directory of the slot |
| Processes.CreateCodes | src/process.c:39-74 | the answer of a creation by the order of its checks, which change nothing before the directory is taken |
| Processes.FailedReadEffects | src/process.c:61-74 | a failed read leaves the first free directory taken, with the two entries of the kernel and nothing else |
| Processes.CreateEffects | src/process.c:39-140 | a creation fills the first dead slot with the next number and the first free directory, maps the frames from 0 in the higher half, counts up both counters, and changes nothing else |
| Processes.DestroyEffects | src/process.c:148-163 | a destruction ends the first slot with the number, blanks and frees its directory, keeps its context and changes nothing else |
| Processes.SavedRegistersStay | src/scheduler.c:40-45 | over every run the slot that a tick saved to has the registers of that tick and its directory, until another tick names it or a creation fills it |
| Processes.DestroyZeroIff | src/process.c:30-37 | destroying number 0 keeps the invariant if and only if there is no dead slot or no live process has the directory of the first one |
| Processes.DestroyZeroBreaks | src/process.c:148-163 | a run of allowed calls after which destroying number 0 frees the directory of a live process |
| Processes.CreateThenDestroy | src/process.c:39-163 | destroying what was just created restores pool, tables and live slots; the count and the number are spent |
| Processes.BootEstablishesInv | src/kernel.c:33-58 | the boot sequence, which first opens the kernel's entry 0 to users, ends in the invariant with at most one process |
| Processes.RunKeepsInv | src/process.c:16-163 | over every run the invariant stays, counters only grow and stay below 18, and used directories minus live processes grow by the failed reads only |
| Processes.NumbersNeverRepeat | src/process.c:16-19 | the numbers that a run hands out are the ones from the counter on, one by one; every number in use afterwards is one of them or was in use before, and those were all smaller |
| Processes.RunCompactIff | src/scheduler.c:31-33 | every slot that the scheduler's index can name belongs to a live process, after any run, if and only if no process has ended in it |
| Processes.BootCompactIff | src/kernel.c:56-58 | after boot that is so if and only if the first creation succeeded |
| Processes.BootedRun | src/kernel.c:33-58 | after every run from boot the used directories are those of the live processes and one for each failed read, and entry 0 is still a user page on frame 0 |
| Processes.ProcessManager.CreateUserProcess | src/process.c:39-140 | code and new state are those of the step in every case |
| Processes.ProcessManager.DestroyProcess | src/process.c:148-163 | the same; true exactly when some slot has the number |
| Processes.ProcessManager.CreateNewPageDirectory | src/paging.c:123-146 | takes the first unused directory and enters the two entries of the kernel's own, or reports NULL and changes nothing |
| Processes.ProcessManager.FreePageDirectory | src/paging.c:148-172 | marks the directory unused and clears all its entries; anything else is passed over |
| Processes.ProcessManager.SaveContext | src/interrupt.c:155-174 | the slot below the count gets the registers and keeps its directory, number, state and pages; every other slot stays, and without active processes all do |
| Processes.ProcessManager.SwitchToNext | src/scheduler.c:31-56 | the next index modulo the count; as long as no process has ended, a live process on a directory in use that maps its pages |
| Processes.ProcessManager.MapKernelPage | src/paging.c:71-88 | the kernel's entry 0 becomes a user page on frame 0, and one page frame fewer counts as free |
| Processes.ProcessManager.BootShell | src/kernel.c:33-58 | the end of the kernel's main: the booted state, and slot 0 picked, live exactly when the creation succeeded |
| Screen.CursorMovesOn | src/framebuffer.c:40-53 | on the endless page the cursor only moves forward |
| Screen.GlyphStays | src/framebuffer.c:22-53 | every printed glyph is shown where the cursor was, with the low four bits of its color on black, whatever is printed after it |
| Screen.RestIsBackground | src/framebuffer.c:31-38 | every other cell is a cleared one in the first 25 rows, and a blank that scrolling brought in below |
| Screen.PlainTextFillsRows | src/framebuffer.c:44-51 | without line breaks the text fills the page row by row |
| Screen.LineFillsRows | src/framebuffer.c:44-51 | a line break starts the next row, which the rest of the line and the rows below it then fill |
| Screen.Framebuffer.GlyphInMemory | src/framebuffer.c:22-53 | a printed glyph whose row is on the screen is in the memory at twice 80 times its row plus its column, byte and color |
| Screen.Framebuffer.ScrollUp | src/keyboard.c:82-90 | all rows move up by one, the last one is blank, cursor and input mark move with them |
| Screen.Framebuffer.PutChar | src/framebuffer.c:40-53 | the screen goes on showing the last rows of the page, with one glyph more, whose two bytes are in the memory; row and column are those of the cursor; the input mark stays on its page row |
| Screen.Framebuffer.Puts | src/framebuffer.c:55-62 | the same for the string up to its NUL or its length |
| Screen.Framebuffer.Clear | src/framebuffer.c:31-38 | an empty page from its first row, every cell 0 on 7 |
| Numbers.RoundTrip | src/user-shell.c:1099-1163 | parsing the printed text gives the number back, for every 32-bit number including -2^31 |
| Numbers.TextByDigits | src/user-shell.c:1099-1139 | one digit prints as itself, ten times a number plus a digit as the number with the digit behind it, and a negative number as a sign before its opposite |
| Numbers.DecimalIff | src/user-shell.c:1099-1139 | the printed text is a decimal number, with a sign if negative, if and only if the number is not -2^31 |
| Numbers.ParseThenPrint | src/user-shell.c:1141-1163 | every decimal string without leading zeros and with a value below 2^31 is parsed to its value and printed back unchanged |
| Numbers.FoldIsValueMod | src/user-shell.c:1150-1156 | for any characters below 128 the parsing loop computes the place value modulo 2^32 |
| Numbers.TextFits | src/user-shell.c:1099-1139 | the text has at most eleven characters |
| Numbers.IntToStr | src/process.c:165-200 | the digit loop and the reversal in place leave the text and its NUL, and touch nothing behind it |
| Numbers.StrToInt | src/user-shell.c:1141-1163 | adding each character before taking '0' away, with wrap-around at each operation, is the value of the string |

## Left out

- `move_dir` and the shell's `mv`: the source table is never read before it is used, so there is no contract to hold it to; of `mv` only the path resolution is modelled.
- The physical page-frame allocator of `src/paging.c`, but for the one call there is, which maps the kernel's first page before the first process; its map of frames is written and never read, and nothing frees a frame.
- Port I/O, disk waiting, interrupt controller, segment and page registers, hardware cursor, all assembly; reading and writing clusters is array access.
- The system call registers and the narrowing of result codes to eight bits: the shell sees the value that the driver returns.
- `keyboard_isr` (key codes, arrows, backspace), the prompt loop, command dispatch, `clock.c` and `cmos.c`; the screen is modelled between key presses.
- `list_dir_content`, `remove_space`, `remove_petik`, `custom_sprintf`, `ps`: easy loops with nothing behind them. The names kept in the process list are left out as well.
- Overruns of fixed C arrays: the walks require a buffer that holds the highest index the search writes to, cd and cp a path text within its 255 bytes, the printer room for the text.
- The disk has the 512 clusters of the allocation table and requests name one of them as parent; other cluster numbers are not modelled.
- Signed overflow, which C leaves undefined, is modelled as wrap-around.
- The name of the root is copied as eight bytes out of a five-byte literal; the bytes behind the literal are a parameter.
- The two copies of the depth-limited search differ in the engine they call, and are one method with the engine as a parameter; the same holds for the two copies of the integer printer. The letters for digits above 9 cannot be reached and are left out.
- The text of a file is what its clusters hold before the first NUL.
- Walks.Walker.DepthLimitedSearch: requires that no directory line which is taken back has a line feed in its name, because the erasing loop stops at one; lines that stay may. What is left in the other case is said line by line, by Buffers.RetreatIff.
- Walks.Walker.FindAndPrintPath: requires the same.
- Driver.FatDriver.Read: when the key of zeros finds an unused entry that reads as a file, its old chain has to be a chain still; otherwise the loop leaves the allocation table for memory that is not part of this model.
- Driver.FatDriver.Delete: requires the same of an entry it would free; what such a delete does within the table is said by Safety.DeleteSafeIff.
- Runs.FormattedRunRefines: follows a run up to its first call that is not legal, that is, one that names no live directory, a key of zeros only, a write without room or with data not padded to whole clusters, or the deletion of the empty root; what a write without room and that deletion do is said by Safety.WriteSafeIff and Safety.DeleteSafeIff.
- Shell.ShellState.CopyInto: covers the branch of cp for destinations without a dot, which is the one that changes directory; reading the source file and copying to a file name are not modelled. Where the write at the end of the path does not fit, the store is broken (Shell.CopySafeIff) and nothing is said about the way back.
- Shell.ShellState.Cd: going into a directory with a slash in its name, or past the end of the text buffer, is not modelled; Shell.UnwoundIff says why the slash matters.
- Processes.ProcessManager.SchedulerInit: requires at most one live process, as the kernel's main calls it once, after the first creation.
