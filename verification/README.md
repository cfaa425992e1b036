# A verified model of ioapps

ioapps records the I/O calls of a process with strace, keeps the trace in a binary file, and replays or simulates
it. This project models the five parts of it that hold state, and proves what they keep, in Dafny. Run
`dafny verify dfyconfig.toml` to check all of it.

**The descriptor machine** (`FdMaps`, `FdMachine`, `FdInvariant`, `FdSafety`, `FdPaths`, `FdAliases`, `FdPositions`,
`FdTransfers`, `FdNotes`, `FdEntries`, `Replicator`). Every process has a table from recorded descriptors to records (fd_map); a
record may have several names, and a table may belong to several processes. The heap is explicit: a record has an address, and
`free` takes the address away, so that a use after it is a fault of the model. A run is a sequence of trace records;
a step aborts where the program would stop on an assert (asserts are compiled in), read a null table, or use freed
memory. `Replicator` is the imperative program; each of its methods is proved to do what the specification function
of the same call does. The main results are exact: `StepExact` and `RunExact` say, for every record and every run,
when it aborts and when it keeps the bookkeeping right, with both directions proved. The departures of the code from
its intent are in the conditions `Faults` and `Breaks`: dup of a descriptor onto itself, dup onto a stale parent left
by a copying clone, a copying clone of a process nobody knows, the twenty-first name of a record, and a pipe end whose
recorded number is counted as that of an open file.

**Paths, the trie and the simulated file system** (`PathText`, `PathNormal`, `Trie`, `SimFsSpec`, `SimFsText`,
`SimFsAnswers`, `SimFs`). Polishing a path in place is compared with a stack of directories. The trie is a store of nodes with owner
and child links, proved to be a prefix-closed set of paths; its one-pass scanner is proved to find what a walk over
strtok's tokens finds, down to the buffer it leaves behind. The calls of simfs.c work on that trie, with the real disk
as an oracle, and are proved equal to functions on the set of paths; what those functions leave behind, and what can
make a known path disappear, is stated exactly.

**The binary trace** (`BinCodec`, `BinLayout`, `TraceFile`). Nineteen record kinds are printed and parsed back; the
round trip is proved to hold exactly for the traces without rmdir. The format itself is stated byte by byte.

**Lines of strace** (`StraceComma`, `StraceLines`, `StraceFormat`). The scanner for the comma after a quoted argument,
the joining of calls that strace split in two, and what is made of lines in strace's own format.

**Lists and hash tables** (`IntrusiveList`, `HashTable`). Real pointers: head, tail, neighbours and owner of the
intrusive list, and a table of such lists, proved to be a sequence and a finite map.

Where the repository's documentation and its code disagree, the model follows the code. The comment above
`hash_table_remove` says that it removes all matching items; it removes the first (`RemoveFindsNext`). The comment
above `simfs_access` promises ENOENT for a path that should exist and does not; the code never assigns its result
there (`AccessAnswer` says exactly when). The comment above `simfs_unlink` keeps ENOENT for missing files; a recorded
success on a file that only the disk has is answered so too (`UnlinkRightExactly`). `simfs.h` promises that one mismatch does not cascade; that is
`NoCascade`; `FailingRootMkdirForgetsAll` and `SlashesForget` are inputs on which known paths are lost instead. The
transfers noted for a file are meant to be where the process read and wrote; a failed one shifts those after it, and
`ChainedExactly` says when that happens. The comment on `strace_pos_comma` speaks of the second quote;
`EscapedExactly` says which quote that is.

## Model

| member | source | states |
|---|---|---|
| FdMaps.WithParent | fdmap.c:284-306 | recording a descriptor stops the program exactly if it is recorded already; it adds exactly that descriptor, or nothing when all 20 slots are used |
| FdMaps.WithoutParent | fdmap.c:316-344 | forgetting a descriptor stops the program exactly if it is not recorded and a slot is free; it takes out exactly that descriptor |
| FdMaps.NoParentsLeft | replicate.c:727-736 | the last used index is -1 exactly when no descriptor is recorded |
| FdMaps.InsertParentFd | fdmap.c:284-306 | the loop over the parent array in place leaves what WithParent says |
| FdMaps.DeleteParentFd | fdmap.c:316-344 | the swap-delete in place leaves what WithoutParent says |
| FdInvariant.CloseEntryWorks | replicate.c:688-746 | under the invariant a close never meets a failing assert, and when it frees the record no entry of any table points to it any more |
| FdInvariant.LastUse | fdmap.c:246-264 | the usage key of an open file is always there, and it goes exactly when the closed entry was its only user |
| FdInvariant.CloseEntryKeepsInv | replicate.c:688-746 | a close keeps every entry recorded, owned by one table, and counted |
| FdInvariant.LinkEntryKeepsInv | replicate.c:1108-1153 | a new name for a record keeps the invariant, unless all slots are used and the name is not among them |
| FdInvariant.CopyTableKeepsInv | fdmap.c:167-192 | copying a table with all its records keeps the invariant, the usage counts of the copies included |
| FdInvariant.OpenAtKeepsInv | replicate.c:548-650 | a new record under a fresh number keeps the invariant and the supplies apart |
| FdInvariant.RegisterKeepsInv | replicate.c:163-177 | giving an unknown process the first process's table keeps the invariant |
| FdSafety.GetTableWorks | replicate.c:163-177 | with fix-missing every unknown process gets the table of the first one; the exception is exactly a process that was cloned from an unknown one |
| FdSafety.ResolveWorks | replicate.c:163-207 | with fix-missing every non-negative descriptor of a process with a table resolves to a live entry, and what is made up on the way keeps the invariant |
| FdSafety.ResolveFaults | replicate.c:163-207 | the lookup of a process and a descriptor stops the program exactly on negative keys |
| FdSafety.DupStep | replicate.c:1108-1153 | when dup stops the program and when it breaks the bookkeeping: onto itself, onto a stale parent, as the twenty-first name |
| FdSafety.PipeStep | replicate.c:498-546 | a pipe keeps the invariant exactly when neither recorded end is counted as an open file's number |
| FdSafety.StepExact | replicate.c:222-1250 | for every record: the step stops the program exactly on the listed records, and otherwise keeps the invariant exactly when it is not one of the two breaking ones |
| FdSafety.RunExact | replicate.c:1404-1511 | for every run within the supplies: it gets through with the invariant kept throughout, exactly when no record is a faulting or breaking one in its turn |
| FdSafety.SoundRunEnds | replicate.c:1404-1511 | such a run ends, with no dangling descriptor and every count right |
| FdSafety.LowPipeIsHarmless | replicate.c:482-486 | pipe ends recorded below 1000 never disturb the count of an open file |
| FdSafety.InitIsSound | replicate.c:1268-1362 | the tables at the start satisfy the invariant, and the number supplies last for 33,333,000 records |
| FdSafety.UnrecordedAliasDangles | fdmap.c:284-306 | after an unrecorded alias, closing the recorded name frees the record, and the next transfer through the alias uses freed memory |
| FdPaths.StepPath | replicate.c:222-1250 | every sound step is a path of elementary changes to the table of its own process only; only a copying clone copies, only transfers and seeks move positions |
| FdAliases.FreedAtLastClose | replicate.c:688-746 | with exact parents, a close frees the record exactly when it closes the last alias |
| FdAliases.TightStep | fdmap.c:167-192 | parents stay exactly the aliases through every sound step, except, exactly, a copying clone of a table in which a record has two names |
| FdAliases.TightDup | replicate.c:1108-1153 | with exact parents a dup of valid numbers stops the program only onto itself |
| FdAliases.StepFrame | replicate.c:222-1250 | a sound step changes no table but that of its process, and none of the records behind another |
| FdAliases.RunFrame | replicate.c:1404-1511 | over a whole run a table changes only through the processes that share it, and no process changes its table |
| FdAliases.SharingClone | replicate.c:657-681 | after a clone with shared files, recorded or made up, both processes have one table |
| FdAliases.SharedForever | replicate.c:163-177 | processes that share a table see the same descriptors after every sound run |
| FdAliases.CopyingCloneStarts | fdmap.c:167-192 | a copying clone starts with equal but separate records under the same numbers |
| FdAliases.CopyingCloneSeparates | replicate.c:657-681 | afterwards, whatever the one side does, the other side's table and records stay |
| FdPositions.StepRefinesPosix | replicate.c:857-920 | every granted call except a copying clone keeps tables, aliases and offsets equal to those of POSIX open file descriptions |
| FdPositions.RunRefinesPosix | replicate.c:1404-1511 | so does every run of granted calls without a copying clone |
| FdPositions.StartRefinesPosix | replicate.c:1268-1362 | in particular from the start on, whose tables agree with a POSIX state |
| FdPositions.TransferAgreesExactly | replicate.c:262-268 | a read or write, failed ones included, keeps the agreement with POSIX exactly if it did not fail |
| FdPositions.ForkRefinesPosix | fdmap.c:180-188 | a copying clone keeps that agreement exactly when the table is empty |
| FdPositions.ForkSplitsPosition | fdmap.c:180-188 | after a copying clone a read by the parent moves the child's POSIX offset but not the position kept for the child |
| FdTransfers.StepEvents | replicate.c:222-350 | a sound step moves the position of a record exactly as its transfer or seek says, whatever alias was used; a failed transfer moves it by -1 |
| FdTransfers.RunEvents | replicate.c:222-350 | over every sound run the moves of a record's position, failed transfers included, are contiguous between seeks, and the position is where they lead |
| FdTransfers.PositionIsSum | replicate.c:222-350 | without a seek the position is the start plus all bytes moved, modulo 64 bits |
| FdTransfers.PositionSinceSeek | replicate.c:857-920 | after a seek it is the result of the seek plus the bytes moved since |
| FdTransfers.TransfersDisjoint | replicate.c:222-350 | moves between seeks of which none failed do not overlap and follow one another |
| FdTransfers.MaxOffset | simulate.c:379-395 | the result is the greatest end of a noted transfer, or 0 |
| FdNotes.StepNotes | simulate.c:139-208 | a step appends to the logs of the files exactly the transfer it makes, with the position before it and its return value, and nothing if it failed |
| FdNotes.RunNotes | simulate.c:139-208 | after every run each file's log is what it was and then the transfers of the run noted for the file, in order |
| FdNotes.NotedIsHistory | replicate.c:262-270 | what a run notes through a record at its position are the moves of its history that did not fail, in order |
| FdNotes.HistoryIsContiguous | replicate.c:222-350 | the history of a record is contiguous from its position on, also when the record is freed on the way |
| FdNotes.ChainedExactly | replicate.c:262-270 | between seeks the noted transfers follow one another exactly when no failed one lies between two of them |
| FdNotes.NotedExactly | replicate.c:262-350 | the same of every stretch without a seek in the history of any record over every sound run |
| FdNotes.FailureOverlaps | replicate.c:268 | a failed transfer between two makes the second start one byte before the end of the first |
| FdNotes.FailedReadOverlaps | replicate.c:262-268 | on any open file: a read, a failed read and a read leave two overlapping reads in the log |
| FdNotes.EndsAtPosition | simulate.c:379-395 | without failures and within 64 bits no noted transfer ends after the position, and the last one ends there |
| FdNotes.LoggedMax | simulate.c:379-395 | for a file's log after a run: the greatest end of what was logged before and of what the run notes |
| FdEntries.OpenedRecord | replicate.c:589-645 | a recorded open under a new number files a record that is ignored exactly if the name map leaves the name out, else a directory exactly if opened as one, with the mapped name, the next number and position 0 |
| FdEntries.OpenedNothing | replicate.c:556-580 | a failed open, and one under a number in use, changes nothing |
| FdEntries.OpenedTransfer | replicate.c:548-650 | an open and then a read or write of n bytes notes exactly (0, n) for the mapped name, unless the name is ignored or the transfer failed |
| FdEntries.MissingIsOpened | replicate.c:179-207 | with fix-missing a call on an unknown descriptor does what it does after an open of the made-up file; without, nothing |
| FdEntries.SocketRecord | replicate.c:1222-1262 | a recorded socket files a nameless record of type socket under the next number of the descending supply |
| FdEntries.SocketIsSilent | replicate.c:247-250 | no transfer through a socket is noted or moves a position |
| FdEntries.PipeRecords | replicate.c:498-546 | a recorded pipe files two nameless records of type fifo under the next two numbers |
| FdEntries.PipeIsSilent | replicate.c:247-250 | no transfer through either end of a pipe is noted or moves a position |
| FdEntries.ClosedEntry | replicate.c:708-742 | a close takes exactly its entry out of the table; a number is used once less exactly if it is a file's or a directory's |
| FdEntries.LinkedEntry | replicate.c:1108-1153 | a dup enters the same record under the new number, which is used once more |
| FdEntries.ClonedFromNobody | replicate.c:657-681 | a process that shares the files of an unknown one has no table, and its records are passed over even with fix-missing |
| FdEntries.StandardStreams | replicate.c:1301-1362 | at the start transfers through 1 and 2 are silent, and 0 is a descriptor nobody opened |
| FdEntries.FirstNumbers | replicate.c:482-492 | the first file is number 1000, the first socket 100000000, the first pipe 2147483646 and 2147483645 |
| Replicator.Replicator.IncreaseUsage | fdmap.c:231-244 | in place: the count goes up by one from what it was, or from nothing |
| Replicator.Replicator.DecreaseUsage | fdmap.c:246-264 | in place: the count goes down, the key goes at one, and a missing key stops the program |
| Replicator.Replicator.DuplicateTable | fdmap.c:167-192 | the loop over a table copies every record and counts every copy |
| Replicator.Replicator.Clone | replicate.c:657-681 | the method does to tables and processes what CloneSpec says |
| Replicator.Replicator.MissingTable | replicate.c:163-177 | the method makes up a sharing clone of the first process, if asked to |
| Replicator.Replicator.Open | replicate.c:548-650 | the method enters a new record, after closing what was under the number, if the call was a success |
| Replicator.Replicator.OpenPipe | replicate.c:498-546 | the method enters both ends and counts them under the recorded numbers |
| Replicator.Replicator.OpenSocket | replicate.c:1222-1262 | the method enters a record from the descending supply |
| Replicator.Replicator.Entry | replicate.c:186-207 | the method finds the entry of a descriptor or makes an open up |
| Replicator.Replicator.Close | replicate.c:688-746 | the method takes out the entry, the count and, with the last parent, the record |
| Replicator.Replicator.Duplicate | replicate.c:1108-1153 | the method closes the target first and then links it, the same number included |
| Replicator.Replicator.Transfer | replicate.c:222-350 | the method notes the transfer at the position before it and moves the position by the return value, failures included |
| Replicator.Replicator.SetPosition | replicate.c:857-920 | the method sets the position to the seek's result |
| Replicator.Replicator.ReplicateAll | replicate.c:1435-1509 | the loop over the trace is Run |
| PathText.Strtok | simfs.c:156-182 | each call hands out the next non-empty piece and leaves the rest |
| PathText.TokensSplit | simfs.c:156-182 | a delimiter separates the tokens before it from those after it |
| PathText.TokensOfJoin | simfs.c:156-182 | splitting undoes joining |
| PathNormal.NormaliseExact | simfs.c:90-136 | on a path whose components do not start with ".." unless they are "..", the assert never fails, and the result is the stack's path exactly when no hidden name is left on the stack |
| PathNormal.LoopIsFold | simfs.c:92-113 | on every path of components the first loop is a fold over them, with a stack of components and a head without a slash |
| PathNormal.FoldFollows | simfs.c:92-113 | on tame paths that fold is the stack of directories |
| PathNormal.StopsExactly | simfs.c:105-106 | on every path of components the assert fails exactly where the fold meets a component that starts with ".." on an empty stack with a head |
| PathNormal.SafeExactly | simfs.c:105-106 | a component is safe, whatever tame paths stand around it, exactly if it is ".." or does not start with ".." |
| PathNormal.DotDotAfter | simfs.c:105-106 | a ".." after any component that starts with ".." and goes on makes the assert fail |
| PathNormal.DotsExactly | simfs.c:92-136 | at every point of the path the result is that of POSIX resolution, exactly if no ".." meets a stack with "." on top and a name below it |
| PathNormal.DotIsPopped | simfs.c:92-136 | on "/a/./.." the two differ, because ".." takes the "." |
| PathNormal.RemoveDotDots | simfs.c:92-113 | the first loop in place, including the failing assert |
| PathNormal.RemoveDots | simfs.c:115-136 | the second loop in place |
| PathNormal.AbsoluteFollows | simfs.c:68-86 | a relative name is followed from the current directory on |
| PathNormal.AbsoluteName | simfs.c:68-137 | the buffer ends up with the polished absolute path; the program exits exactly when the current directory does not fit |
| Trie.SiblingsDiffer | adt/fs_trie.c:170-185 | no two children of a node have the same key |
| Trie.PrefixClosed | adt/fs_trie.c:45-91 | with a path the tree has all its prefixes, and every component is non-empty and free of the delimiter |
| Trie.LinkingKeepsTree | adt/fs_trie.c:75-86 | linking a new leaf keeps owners, child lists and paths consistent |
| Trie.UnlinkingKeepsTree | adt/fs_trie.c:107-109 | unlinking a leaf keeps them consistent |
| Trie.TrimRemoves | adt/fs_trie.c:101-129 | once the children are gone, unlinking the node has removed exactly its subtree |
| Trie.ScanToken | adt/fs_trie.c:258-270 | where the scanner meets a delimiter after some text, that text is the next of strtok's tokens |
| Trie.ScanEnd | adt/fs_trie.c:283-297 | what follows the last delimiter is the last token, if it is not empty |
| Trie.RestTokens | adt/fs_trie.c:57-73 | the part of the key after the text found has exactly the tokens the tree could not follow |
| Trie.Trie.FindChild | adt/fs_trie.c:170-185 | the child with the key, exactly if the path one longer is in the tree |
| Trie.Trie.Find | adt/fs_trie.c:195-218 | decides membership of the path the key spells, for any delimiters in it |
| Trie.Trie.LongestPrefix | adt/fs_trie.c:230-301 | the node at which a walk over the tokens gets stuck, and the exact contents of the buffer, the untouched character included |
| Trie.Trie.Insert2 | adt/fs_trie.c:45-91 | adds exactly the missing prefixes of the path, with fresh data, and keeps every other node and its data |
| Trie.Trie.Delete2 | adt/fs_trie.c:101-129 | removes the node and everything below it, the root excepted, and says whether there was more than one |
| Trie.Trie.Delete | adt/fs_trie.c:150-161 | removes exactly the path of the key and its extensions, never the root; TRIE_ERR exactly if it is not there |
| SimFsSpec.HaveIs | adt/fs_trie.c:230-301 | of a path's prefixes, a prefix-closed tree has exactly those up to a length |
| SimFsSpec.PopulatedFacts | simfs.c:145-197 | asking the disk adds exactly the longest run of missing prefixes found there, as physical nodes with their sizes |
| SimFsSpec.StepKeepsClosed | simfs.c:231-710 | every call keeps the tree prefix-closed |
| SimFsSpec.Elsewhere | simfs.c:231-710 | paths neither above nor below the operand keep membership and data |
| SimFsSpec.SuccessLeavesPath | simfs.c:231-710 | a recorded success of access, stat, mkdir or open leaves the path and all above it present |
| SimFsSpec.UnlinkLeavesNothing | simfs.c:485-560 | unlink leaves the path and everything below it absent in every branch |
| SimFsSpec.FailureLeavesPath | simfs.c:308-375 | after a recorded failure of stat or access the path is absent, unless, exactly, it was there and virtual only |
| SimFsSpec.StatAnswer | simfs.c:308-375 | stat answers 0 exactly when the recorded outcome is what tree and disk lead to expect |
| SimFsSpec.AccessAnswer | simfs.c:284-296 | the answer of access is the unassigned value exactly when a recorded success names a path that neither tree nor disk has; otherwise it is that of stat |
| SimFsSpec.AccessSaysNothing | simfs.c:284-296 | with an empty disk such a call can be answered 0 where stat answers ENOENT |
| SimFsSpec.KnownOperand | simfs.c:415-444 | for a known path the slashes at the end of the name decide: mkdir and open take it for existing without a surplus one; mkdir expects to succeed with up to two, open with up to one |
| SimFsSpec.ThereExactly | simfs.c:407 | mkdir takes a path for existing exactly when tree and disk have it and the part of the name that the tree did not know is spelled with single slashes |
| SimFsSpec.SingleSlashTells | simfs.c:427-444 | for a name with single slashes, the spelling of the missing part tells whether the parent is there |
| SimFsSpec.MkdirAnswer | simfs.c:383-477 | a recorded mkdir is answered EENT if its path is there, 0 if its parent is, and else ENOENT, exactly when the spelling of the name tells what its components tell |
| SimFsSpec.CreatAnswer | simfs.c:588-710 | so is a recorded open that creates the file exclusively |
| SimFsSpec.AnsweredRight | simfs.c:383-477 | whatever tree and disk are, mkdir and exclusive open are answered so, exactly if the name has single slashes and none at its end |
| SimFsSpec.SlashesForget | simfs.c:415-458 | two or three slashes after a known directory make a failing recorded mkdir take it out of the tree with all below it |
| SimFsSpec.Disappears | simfs.c:231-710 | a known path disappears exactly when a call of the listed kinds, told by its outcome and the slashes at the end of its name, names it or a path above it |
| SimFsSpec.KnownThroughout | simfs.c:231-710 | over every run a path stays known exactly when no such call comes up |
| SimFsSpec.NoCascade | simfs.h:35-36 | after a recorded success on a path and a run that spares it, its recorded success is answered 0 |
| SimFsSpec.FailingRootMkdirForgetsAll | simfs.c:446-458 | a failing recorded mkdir of "/" takes every path but the root out of the tree |
| SimFsAnswers.StatAnswers | simfs.c:308-375 | stat answers 0, ENOENT or EENT exactly as the recorded outcome and the path, found or not, say |
| SimFsAnswers.UnlinkAnswers | simfs.c:485-560 | a recorded success of unlink is answered 0 exactly if the path is known under the very name, else ENOENT; a failure 0 exactly if the path is not found, else EENT |
| SimFsAnswers.UnlinkRightExactly | simfs.c:533-555 | that is right by the path alone, except, exactly, after a success on a path found that was not known under the very name |
| SimFsAnswers.MkdirAnswers | simfs.c:407-473 | mkdir, failed or not, is answered as the spelling of the name says |
| SimFsAnswers.OpenAnswers | simfs.c:612-705 | open, with any flags and outcome, is answered as the spelling of the name says; a failed O_CREAT without O_EXCL on a path that is there passes for expected |
| SimFsAnswers.MkdirRightExactly | simfs.c:407-473 | the answer of mkdir, failed or not, is that of the components exactly if the spelling tells what they tell |
| SimFsAnswers.OpenRightExactly | simfs.c:612-705 | so is that of open, with the exact condition for each combination of flags and outcome |
| SimFsAnswers.PlainAnswers | simfs.c:383-705 | for plainly spelled names whether path and parent are found decides the answers of mkdir and open |
| SimFsAnswers.TreeAfter | simfs.c:231-710 | after any call the tree has exactly the paths known or found and those a recorded success proves, less the operand and all below it after an unlink or an unexpected failure |
| SimFsAnswers.DataAfter | simfs.c:45-61 | after any call a path has what it had, the size on disk, or nothing if made up; exactly a path made by mkdir or O_CREAT is marked created |
| SimFsText.KnownSplits | simfs.c:268-271 | the known part is the start of the name, and the rest has exactly the unknown components |
| SimFsText.KnownWhole | simfs.c:248 | the known part equals the name exactly when all components are known and the name ends in at most a single slash |
| SimFsText.PopulatedText | simfs.c:162-183 | for a name with single slashes the populated part is the join of the components found |
| SimFsText.MissingText | simfs.c:427-444 | for a name with single slashes the two parts together are the name, and the test for no slash in the missing part holds exactly when at most the last component is missing |
| SimFsText.Spelling | simfs.c:162-183 | for every name the populated part is no longer than the name, and is the name exactly when every component is found and no slash is left over |
| SimFsText.Shortest | simfs.c:162-183 | joining with single slashes is the shortest spelling of a path and the only one of its length |
| SimFsText.KnownRest | adt/fs_trie.c:264-268 | when every component is known, what the known part leaves of the name are its surplus slashes |
| SimFs.PolishedName | simfs.c:68-137 | polishing yields a name with single slashes that starts with one |
| SimFs.InsertedOne | simfs.c:172-175 | inserting a path whose parent is known adds that path only |
| SimFs.SimFs.constructor | simfs.c:202-209 | at the start the tree is the physical root |
| SimFs.SimFs.Populate | simfs.c:145-197 | the loop in the trie and in both strings: the tree, the result and the two parts |
| SimFs.SimFs.Stat | simfs.c:308-375 | answer and tree are those of StatSpec |
| SimFs.SimFs.Access | simfs.c:231-297 | answer and tree are those of AccessSpec, with the unassigned result as a parameter |
| SimFs.SimFs.Unlink | simfs.c:485-560 | answer and tree are those of UnlinkSpec |
| SimFs.SimFs.Mkdir | simfs.c:383-477 | answer and tree are those of MkdirSpec, for every name from the root |
| SimFs.SimFs.Creat | simfs.c:588-710 | answer and tree are those of CreatSpec, for every name from the root |
| BinCodec.Int32Back | in_binary.c:38-56 | every 32-bit integer is read back from its little-endian bytes, negative ones included |
| BinCodec.Int64Back | in_binary.c:45-62 | so is every 64-bit integer |
| BinCodec.NameBack | in_binary.c:747-766 | a NUL-free name is read back from its length and characters |
| BinCodec.RecordBack | in_binary.c:105-524 | every record but rmdir is read back by the reader its tag selects, from the front of any file |
| BinCodec.NeverRmdir | in_binary.c:360-386 | no reader yields an rmdir item of rmdir's type |
| BinCodec.RoundTripExact | in_binary.c:526-656 | the trace read is the trace saved, in content and order, exactly when it has no rmdir |
| BinCodec.RmdirAtEnd | in_binary.c:895-912 | a trace that ends in an rmdir is read as the records before it, with result -1 |
| BinLayout.PutBytes | in_binary.c:52-62 | byte k of a saved integer x, negative ones included, is x / 256^k mod 256, lowest first |
| BinLayout.OnlySpelling | in_binary.c:38-62 | an integer read at an offset is spelled by exactly those bytes |
| BinLayout.ReadsRight | in_binary.c:534-650 | whatever the bytes, the reader gives the record that their tag and the literal offsets of its fields spell, or fails |
| BinLayout.NameRead | in_binary.c:201-207 | a name is the text behind its length, up to the first NUL |
| BinLayout.FirstRecord | in_binary.c:526-656 | a file gives the record spelled at its front and then what the rest gives; if none is spelled, -1 |
| BinLayout.SavedRecord | in_binary.c:673-1004 | a saved record has the tag of its kind first, and its fields at the offsets of that tag |
| BinLayout.SavedRmdir | in_binary.c:895-912 | an rmdir has the tag of mkdir and no mode |
| BinLayout.SavedFile | in_binary.c:1006-1177 | in a saved file every record is spelled where the ones before it end |
| TraceFile.File.SaveItems | in_binary.c:1006-1177 | the saving loop writes the bytes of all records |
| TraceFile.File.GetItems | in_binary.c:526-656 | the reading loop returns the result and the records, up to the end, the first error, or a 0xFF byte |
| TraceFile.SaveAndLoad | in_binary.c:526-1177 | saving and then loading gives result 0 and the same trace exactly when it has no rmdir |
| StraceComma.EscapedExactly | in_strace.c:91-110 | text is escaped exactly when no quote in it has an even number of backslashes before it and none is left over at the end |
| StraceComma.ClosingAfter | in_strace.c:91-110 | the quote after escaped text is the first that closes |
| StraceComma.CommaIsExact | in_strace.c:65-129 | the comma found is the one after the closing quote, whatever commas, quotes and backslashes the text has, with or without dots |
| StraceComma.CommaAfterPayload | in_strace.c:52-64 | in particular for any payload whose quotes and backslashes are escaped |
| StraceComma.LeavesLineIff | in_strace.c:113-128 | the scan runs off the line exactly when no later quote closes the string |
| StraceComma.PosComma | in_strace.c:65-129 | the loops with their backslash flag find what CommaOf says, NULL arguments included |
| StraceComma.CommaExactly | in_strace.c:83-129 | what follows the closing quote decides: a comma, dots up to the first comma or the end of the line, or nothing; a line that starts with a quote gives nothing |
| StraceComma.NullArgument | in_strace.c:75-81 | without a quote it is the comma of the first "NULL,", if there is one |
| StraceFormat.PidAndOperation | in_strace.c:1035-1057 | of a line with pid, time stamp and name, resumed or not, the pid is that number and the operation that name |
| StraceFormat.UnderstoodExactly | in_strace.c:1079-1133 | exactly the listed calls are understood; pipe2 is not |
| StraceFormat.PidIs | in_strace.c:1141 | a line that starts with the digits of n is one of pid n |
| StraceFormat.LineTaken | in_strace.c:1190-1197 | such a line is a first half exactly if the call is listed and the line marked; unmarked it comes out as it is, if the call is listed |
| StraceFormat.ResumedTaken | in_strace.c:1199-1209 | a resumed line of a listed call is a second half, of another it is passed over |
| StraceFormat.SplitCall | in_strace.c:1136-1188 | the two halves of a call come out as one line, at the second: the text before the first mark and the text after the second |
| StraceLines.OneLine | in_strace.c:1190-1210 | one more line of a well-formed trace: whether the program stops, that at most one half is pending per pid, and what comes out |
| StraceLines.Reassembled | in_strace.c:1377-1384 | on every well-formed interleaving the program stops exactly at a half with a negative pid; otherwise the output is the trace with each pair replaced by its merged line, at the place of the second half |
| StraceLines.NothingPending | in_strace.c:1136-1188 | a pid is pending at the end exactly if its last line is a first half |
| StraceLines.RunInterleaved | in_strace.c:1377-1384 | each pid's output is that of its own lines run alone |
| StraceLines.Rejoined | in_strace.c:1169-1182 | merging drops the two marks and nothing else |
| StraceLines.HackMoves | in_strace.c:1201-1204 | overwriting the character before "resumed" does not move the mark |
| StraceLines.GetOperation | in_strace.c:1043-1054 | the name of the call after pid and time stamp |
| StraceLines.Reassembler.ProcessLine | in_strace.c:1190-1210 | the method changes pending calls and output as Process says, or stops where it does |
| StraceLines.Reassembler.ReadResumed | in_strace.c:1156-1188 | the method stops on a pid that the hash function does not take, and else joins the halves and processes the joined line |
| StraceLines.Reassembler.GetItems | in_strace.c:1377-1384 | the loop is Run, and on well-formed lines the output is the one expected |
| IntrusiveList.List.Append | adt/list.c:68-88 | the sequence gains the item at its end; all links and owners stay consistent |
| IntrusiveList.List.InsertBefore | adt/list.c:90-104 | the sequence gains the item before the target |
| IntrusiveList.List.InsertAfter | adt/list.c:106-120 | the sequence gains the item after the target |
| IntrusiveList.List.Remove | adt/list.c:140-161 | the sequence loses exactly the item, which has no owner afterwards |
| IntrusiveList.List.Length | adt/list.c:177-184 | the walk along the links ends and counts the sequence |
| IntrusiveList.List.Rotate | adt/list.c:192-201 | the head becomes the tail |
| HashTable.HashStr | adt/hash_table.c:54-63 | the shifts compute the polynomial with factor 65599 over the signed characters, modulo 64 bits, then modulo the number of chains |
| HashTable.EmptyRefines | adt/hash_table.c:71-88 | a table with empty chains is the empty map |
| HashTable.FoundIff | adt/hash_table.c:116-136 | a key is found exactly if an element anywhere in the table has it |
| HashTable.InsertRefines | adt/hash_table.c:96-106 | inserting an absent key extends the map; inserting a present one makes the table ambiguous |
| HashTable.RemoveFindsNext | adt/hash_table.c:146-162 | after a removal the key is still found exactly if two elements had it |
| HashTable.RemoveRefines | adt/hash_table.c:146-162 | removing takes the key out of the map and leaves the rest |
| HashTable.RunRefines | adt/hash_table.c:96-162 | over every run in which only absent keys are inserted the table is a map |
| HashTable.Table.constructor | adt/hash_table.c:71-88 | a new table has empty chains and is the empty map |
| HashTable.Table.Insert | adt/hash_table.c:96-106 | the item goes to the end of its chain; the other chains and all links stay |
| HashTable.Table.Find | adt/hash_table.c:116-136 | the first item of the chain with the key, or null |
| HashTable.Table.Remove | adt/hash_table.c:146-162 | unlinks that item and no other |
| HashTable.Table.Apply | adt/hash_table.c:194-207 | the function is called on the items chain by chain |
| HashTable.Table.VisitedOnce | adt/hash_table.c:194-207 | that is every item of the table, once |
| HashTable.Table.Destroy | adt/hash_table.c:241-256 | every chain is empty afterwards, and the callback got every item, unlinked, once |

## Left out

- Real time, clock rates and CPU affinity, and the replaying mode with its system calls: there is no state to prove anything about.
- sendfile in the descriptor machine, where simulate_sendfile uses a null item; its record is part of the codec.
- The field parsers of strace lines, which are sscanf formats: a line that is handed to them is the output of the model.
- fnmatch name mapping, options, printing, statistics, the Python module and the viewer.
- Failing allocations and overflowing fixed buffers; names and lines fit. Names longer than their buffers are not read by the model as memory errors.
- The checking mode's coupling of reads and writes with the simulated file system's sizes, and pread and pwrite sizes there.
- Signed overflow of the descriptor supplies: runs are bounded by the supplies, which InitIsSound shows to last for 33,333,000 records.
- FdSafety.StepExact: asks that the two recorded ends of a pipe differ, which pipe(2) guarantees, and that the number supplies last for one more record.
- FdSafety.PipeStep: asks that the two recorded ends of a pipe differ; equal ones would be two items under one key, which a table here does not hold.
- FdSafety.RunExact: asks the same of every record, and that the supplies last for the run.
- Permission, type and link questions of the file system, which the program does not ask either; the disk is an oracle from component lists to sizes, so that repeated slashes name the same file.
- SimFs.SimFs.Stat: asks, as Access, Unlink, Mkdir and Creat do, for a name that is empty or starts with a slash. Polishing leaves any other only where hidden or "..x" components go wrong, and the sizes that simfs_populate counts on do not hold for those.
- SimFs.PolishedName: does not cover names in which hidden components are left, where polishing goes wrong (NormaliseExact).
- PathNormal.NormaliseExact: does not cover components such as "..x", which glue names together; StopsExactly says what the program makes of them.
- simfs_rmdir, which calls simfs_unlink, and has_file, dump and the apply functions of the simulated file system.
- trie_apply2_full and the dump functions, which visit without changing anything.
- The trie's nodes and child lists as pointers: the store of nodes has addresses, owners and child sequences, and the linked list itself is proved in IntrusiveList.
- The parent array of a record inside Replicator, which is a value there; InsertParentFd and DeleteParentFd work on the array in place.
- Strings that grow inside Populate, SkipCommon and the line reassembler are values; the buffers that are rewritten in place are those of PathNormal and Trie.
- IntrusiveList.List.Remove: asks that the item be on the list, of which its owner pointer is the code's only evidence; an item that names the list without being on it is not considered.
- IntrusiveList.List.InsertBefore: asks that the new item be on no list, which the code does not check.
- IntrusiveList.List.InsertAfter: asks that the new item be on no list, which the code does not check.
- HashTable.Table.Insert: asks that the item carry the key it is inserted under, as all items do but the one for standard input (replicate.c:1314).
- The file type and the time fields of records and list items that no property depends on.
- FdSafety.InitIsSound: starts with the tables that lookups can see; the item for standard input, filed under the key of standard output, is not found by any lookup.
- FdEntries.LinkedEntry: asks for a new number not in use and no fix-missing; with it a made-up file is opened and closed first, and DupStep, TightDup and StepRefinesPosix say what dup does then.
- StraceFormat.SplitCall: asks that the arguments, the tail and the two together hold no mark of their own, so that the marks are strace's.
- StraceLines.Reassembled: asks that merged lines be neither half nor split again and keep their pid, and that lines fit their buffers.
