# hamsterdb: a verified model of its storage cores

This project models five cores of hamsterdb, an embedded key/value store, and proves what they are
for. `dafny verify dfyconfig.toml` checks everything.

**B+tree** (`BtreeNode` to `BtreeMap`). Pages live in a map from address to node. A node keeps its
whole slot array, including slots beyond `count`, because the code reads them. A tree is described by
its levels: level 0 is the sequence of all entries, level 1 the leaves from left to right, and so on up
to the root; every level is exactly the concatenation of what the pages above it point to, and the
sibling links of a level are exactly its sequence. The class `Btree` ties these levels to the pages.
Insert, erase and find are the recursive procedures of the source, with splits, shifts through a
distant anchor page, merges, root growth and root collapse. The main result is `BtreeMap.Run`: over any
run of inserts, hinted inserts, erases and lookups, exact or approximate, with or without a hint, the
tree answers as a finite map does. `BtreeMap.ContentsUnique` shows that the pages and the root alone
decide what the tree contains, so the ghost levels hide nothing.

**Crash recovery** (`LogFormat`, `CrashModel`, `Changeset`, `Recovery`). The log file is a sequence of
bytes that is read backwards. Flushing and recovering are also described as lists of steps, one per log
append, page write or truncation; a crash keeps a prefix of them. The methods are proved to take
exactly these steps, and `LogRecovery.FlushAtomic` and `CrashModel.RunIsCommits` are about every crash
point and every number of interrupted recoveries.

**Transactions and cursors** (`TxnModel`, `TxnLists`, `TxnFlush`, `Transactions`, `TxnSerial`, `TxnRuns`,
`MergeCursor`, `DatabaseWalk`). Pending operations of all transactions sit in the linked lists of the
source, one per key and one per transaction, with the pointers to their oldest and newest operation.
The conflict checks, lookups, aborts and the flush of the oldest committed transactions work on these
lists and on the verified B+tree. `TxnSerial.Serial` runs whole transactions one after the other: every
reply is that of a finite map, and the btree ends with what the committed ones did. The merge cursor walks the btree and the transaction tree in step;
`DatabaseWalk.Scan` walks a whole database and visits exactly the keys a lookup finds. `TxnRuns` holds
runs with an unexpected outcome.

**Blobs and records** (`BlobIO`, `BlobBooks`, `BlobStore`, `BlobRuns`, `RecordHeap`, `Records`,
`DupeOrder`). The file is seen as cached pages over the device. Blobs are allocated, read, overwritten and freed in it,
and every byte taken from the device is accounted for. Records are encoded inline, as blobs or as
duplicate tables, which are blobs too and are read and written as bytes.

**Page cache** (`PageList`, `PageCache`). Hash buckets and the age-ordered list over intrusive,
doubly linked page lists, and purging around the pages of the changeset.

`Bytes` and `Collections` hold what several of them share. Key comparison is a total order; keys are
reals, into which every countable total order embeds. `maxkeys` is even (src/btree.cc:125-130), at most
0xFFFF (src/btree.cc:184-188) and at least 4, because a page has to hold five keys
(src/hamsterdb.cc:921-933).

Some statements that one might expect do not hold. They are stated with the exact condition under which
they do:

- A flush of the changeset without logging is not atomic. `LogRecovery.FlushAtomicExactly` says when a
  flush is: if it logs, or if at most one page differs from the disk.
- Freeing a transaction's operations, on an abort or after a flush, does not reset the newest-operation
  pointer of a key, which then leads to freed memory. A pointer that was right stays right exactly if
  the newest operation on the key is not one of this transaction or all of them are
  (`TxnModel.NewestStays`, in `Transactions.TxnDb.Abort`; `TxnLists.FreedHolds` for any transaction,
  `Transactions.TxnDb.FlushCommitted` for a whole flush). `TxnRuns.AbortStrands` and
  `TxnRuns.FlushStrands` are runs in which it does not. Flushes of operations in begin order always
  keep it right (`TxnModel.InOrderStays`). Lookups, conflict checks and appends need a right pointer
  (`LiveAt`).
- Flushing transactions in begin order can change what a lookup answers (`TxnRuns.ErasedKeyReturns`; one
  step of it is `TxnModel.FlushCanLose`). `TxnFlush.LoopKeeps` has the exact condition for the whole
  loop, `TxnModel.FlushKeeps` for one step, and `TxnRuns.StepsDiffer` shows that the two differ. The
  answers stay the same whenever operations on a key came in begin order (`TxnModel.FlushOldest`).
- The binary search for sorted duplicates that starts at the last entry puts a record larger than all
  of two or more entries in front of the last one; in all other cases its position is right
  (`DupeOrder.SortedPosition`). The records of a key stay sorted exactly in these other cases
  (`Records.AddDuplicate`).
- A cursor moved to the first key keeps its old comparison result. The move and the walk that follows
  are right exactly if that result does not point to an empty tree (`MergeCursor.Cursor.FirstStep`,
  `MergeCursor.Cursor.First`); otherwise the next move stops in place or finds a nil cursor
  (`MergeCursor.Cursor.Next`). `MergeCursor.FirstRepeats` returns the same key twice after a flush
  emptied the transaction tree, and `MergeCursor.FirstFails` misses a key that is there. A fresh cursor
  is always right.
- Overwriting a part of a record in place does not clear the rest of a grown record: it holds what stood
  in the space before (`BlobStore.Store.Overwrite`). In `BlobRuns.SlackReturns` the end of an earlier
  record is back. In a new blob the rest is zero.
- Sizes are computed in 32 bits. The space for a blob is right exactly if header, record and rounding
  stay below 2^32 (`BlobBooks.AllocFits`, `BlobBooks.AlignedFits`), the size of a table exactly below
  2^28 slots (`RecordHeap.TableFits`), and a window read exactly if its end, in 32 bits, does not fall
  back into the record (`BlobStore.Store.Read`). `BlobRuns.SizesWrap` and `BlobRuns.WindowWraps` show
  the other cases.

Where code and comments disagree the code is followed. After `__flush_txn` erased a key that is not in
the btree, the error is replaced by the status of the changeset flush (src/env.cc:1534-1544), so it is no
error in the model. The last part of a gap behind a partial record can be exactly one page long, against
the assertion in src/blob.cc:622-623, and is written all the same.

## Model

| member | source | states |
|---|---|---|
| BtreeNode.GetSlot | src/btree.cc:37-103 | terminates and gives the largest slot whose key is at most the search key, or -1, with the sign of the comparison |
| BtreeLevels.PageKeys | src/btree_check.cc:206-316 | separators inside an internal page of a well-formed tree ascend and lie strictly between the separators around the page |
| BtreeLevels.LeafKeys | src/btree_check.cc:206-316 | keys inside a leaf of a well-formed tree ascend |
| BtreeBackend.Btree.constructor | src/btree.cc:169-233 | a new backend is well formed and empty |
| BtreeBackend.Descend | src/btree.cc:397-430 | the child chosen by the slot search is the page of the next level whose separators enclose the key |
| BtreeBackend.TraverseTree | src/btree.cc:397-430 | returns that child and the slot |
| BtreeBackend.AroundLeaf | src/btree_find.cc:113-136 | every entry left of the leaf that covers a key is smaller, every entry right of it larger |
| BtreeFind.NeighbourMeaning | src/btree_find.cc:143-388 | predecessor and successor are the largest smaller and smallest larger key of the whole entry sequence |
| BtreeFind.NeighbourExists | src/btree_find.cc:143-388 | every key has a predecessor, a successor or itself among a non-empty set of entries |
| BtreeFind.SearchByKey | src/btree.cc:432-673 | the slot of an equal key, or of a neighbour allowed by the flags, with its sign, or -1 when the page has neither |
| BtreeFind.DescendToLeaf | src/btree_find.cc:97-133 | ends in the leaf that covers the key |
| BtreeFind.StepLeft | src/btree_find.cc:169-198 | moves to the entry just before, across page borders, or reports that there is none |
| BtreeFind.StepRight | src/btree_find.cc:204-234 | moves to the entry just behind, across page borders, or reports that there is none |
| BtreeFind.TryHint | src/btree_find.cc:52-93 | hits exactly if the key, or the neighbour the flags prefer, is strictly inside the hinted leaf, and the hit is a correct position for the whole tree |
| BtreeFind.SearchFromRoot | src/btree_find.cc:95-141 | position of the key or an adjacent entry, or proof that nothing allowed by the flags exists |
| BtreeFind.CorrectedIsRight | src/btree_find.cc:143-398 | the corrections turn a located position into the answer the flags ask for |
| BtreeFind.Correct | src/btree_find.cc:143-398 | performs these corrections on the pages |
| BtreeFind.Find | src/btree_find.cc:33-398 | exact, LT, LEQ, GT and GEQ lookups give the equal key or the immediate neighbour over the whole tree, whatever leaf is hinted, and not-found exactly when there is none |
| NodeInsert.InsertNosplit | src/btree_insert.cc:575-778 | the new entry at its place, the record replaced, or the duplicate reported with the page unchanged |
| NodeInsert.WithEntryKids | src/btree_insert.cc:659-684 | the kids of the page gain exactly the new entry at that place |
| NodeInsert.CopyHalves | src/btree_insert.cc:866-923 | the entries from the pivot on are in the new page, without the pivot itself in an internal page, and the counts fit |
| NodeInsert.SplitNode | src/btree_insert.cc:780-945 | both halves together hold what the page held plus the new entry, cut at the pivot, and neither is empty |
| LevelSplit.SplitLevel | src/btree_insert.cc:949-972 | the level gains exactly the new page behind the split one, with all sibling links right |
| LevelSplit.SplitFlat | src/btree_insert.cc:866-945 | the level below gains exactly the new entry |
| TreeInsert.LeafPut | src/btree_insert.cc:575-778 | after an insert without split the tree is well formed and has exactly one more entry |
| TreeInsert.LeafSplit | src/btree_insert.cc:780-994 | a leaf split leaves the levels up to the leaves well formed |
| TreeInsert.InnerPut | src/btree_insert.cc:575-778 | a parent that takes the pivot makes the tree well formed again |
| TreeInsert.InnerSplit | src/btree_insert.cc:780-994 | a parent that has to split leaves the levels up to it well formed |
| BtreeInsert.SplitPage | src/btree_insert.cc:780-994 | allocates the new page, writes both halves and relinks the old right sibling; the pivot is the middle slot, or the last but one for sequential access and for a key behind the last page |
| BtreeInsert.InsertInLeaf | src/btree_insert.cc:518-573 | either the tree is well formed with the insert done, or the leaf was full and the split is handed to the parent |
| BtreeInsert.InsertInInner | src/btree_insert.cc:518-573 | either the pivot fits and the tree is well formed, or the page was full and its split is handed on |
| BtreeInsert.InsertRecursive | src/btree_insert.cc:456-516 | the same for a whole subtree, for any cascade of splits |
| BtreeInsert.NewRoot | src/btree_insert.cc:334-388 | a new root over the two halves makes a well-formed tree that is one level higher |
| BtreeInsert.InsertCursor | src/btree_insert.cc:298-398 | adds exactly the new key, or overwrites its record, or reports the duplicate; the tree stays well formed; it grows by one level only if the root was full |
| BtreeInsert.EndCovers | src/btree_insert.cc:169-287 | a key beyond an outer leaf, or between keys of a leaf, belongs to that leaf |
| BtreeInsert.AppendKey | src/btree_insert.cc:133-296 | for any hinted leaf, the same effect on the contents and the same invariant as the regular insert |
| NodeErase.WithoutEntryKids | src/btree_erase.cc:1415-1432 | the kids of the page lose exactly the removed slot |
| NodeErase.MergeNodes | src/btree_erase.cc:615-674 | the left page holds the kids of both, with the anchor's separator between them, also when the right page just lost its last entry |
| NodeErase.Reanchor | src/btree_erase.cc:926-948 | only the key of the right anchor slot changes |
| NodeErase.ShiftLeftLeaf | src/btree_erase.cc:777-959 | entries move from the right leaf to the left one; both sequences together are unchanged, the anchor holds the first key of the right leaf, counts end within 1 |
| NodeErase.ShiftRightLeaf | src/btree_erase.cc:960-1150 | the same from left to right |
| NodeErase.RotateLeft | src/btree_erase.cc:783-842 | one kid goes over through the anchor |
| NodeErase.MoveLeft | src/btree_erase.cc:852-958 | the anchor's key and further entries go over, the next entry becomes the anchor's key |
| NodeErase.ShiftLeftInner | src/btree_erase.cc:777-959 | internal pages: kids and separators in order are unchanged, only the anchor's key changes, the right page ends with between one less and three more entries than the left |
| NodeErase.RotateRight | src/btree_erase.cc:970-1033 | one kid goes over to the right through the anchor |
| NodeErase.MoveRight | src/btree_erase.cc:1043-1149 | the anchor's key and the last entries go over, the entry before them becomes the anchor's key |
| NodeErase.ShiftRightInner | src/btree_erase.cc:960-1150 | the same as ShiftLeftInner, to the right |
| Anchors.AnchorFacts | src/btree_erase.cc:307-357 | the anchor of a page holds the separator left of it, and the keys next to that slot are no closer than the neighbouring separators |
| Anchors.AnchorSlots | src/btree_erase.cc:735-1150 | looking up a key of either page in the anchor finds the separator's slot, or the one before it |
| Anchors.Raise | src/btree_erase.cc:1196-1270 | replacing the anchor's key moves the separator on every level on which it stands and leaves all levels well formed |
| LevelMerge.MergeLevel | src/btree_erase.cc:676-713 | the level loses exactly the emptied page and its sibling chain is right |
| LevelMerge.MergeFlat | src/btree_erase.cc:615-674 | the level below does not change |
| TreeErase.LeafRemove | src/btree_erase.cc:1272-1434 | the tree without the entry, well formed but for the leaf that may be empty now |
| TreeErase.InnerRemove | src/btree_erase.cc:392-401 | removing the slot of the emptied child makes parent and children agree again |
| TreeErase.TreeMerge | src/btree_erase.cc:571-733 | after a merge everything up to the level is well formed and the levels above are untouched |
| TreeErase.TreeCollapse | src/btree_erase.cc:411-433 | a root without separators hands over to its only child, one level lower |
| TreeShift.ShiftTree | src/btree_erase.cc:735-1163 | after a shift the whole tree is well formed with the same entries, wherever the anchor is |
| BtreeErase.AnchorChoice | src/btree_erase.cc:435-569 | the anchor on one side is the parent exactly if that neighbour has the same parent, and one of the two has |
| BtreeErase.SurroundDown | src/btree_erase.cc:307-360 | the arguments of the recursive call are the siblings, anchors and parent of the child |
| BtreeErase.MergePages | src/btree_erase.cc:571-733 | merges neighbours into one page that fits, and reports the emptied one |
| BtreeErase.ShiftNodes | src/btree_erase.cc:735-1163 | shifts in the direction of the smaller page, both pages keep entries, counts end within 1 for leaves and 3 for internal pages |
| BtreeErase.ShiftPages | src/btree_erase.cc:735-1163 | the tree is well formed again with the same entries |
| BtreeErase.Balance | src/btree_erase.cc:487-569 | whatever branch is taken: the tree is well formed, or two kids of one parent were merged and the parent's slot to remove is that of the emptied page |
| BtreeErase.Rebalance | src/btree_erase.cc:435-569 | the same for a page without siblings and when nothing asked for a rebalance |
| BtreeErase.NotLower | src/btree_erase.cc:434-700 | merging and shifting never touch a page of a lower level |
| BtreeErase.EraseInLeaf | src/btree_erase.cc:364-409 | nothing changed and the key absent, or exactly its entry gone and the levels as Rebalance leaves them |
| BtreeErase.AfterChild | src/btree_erase.cc:392-409 | takes out the slot of a merged child and rebalances |
| BtreeErase.EraseRecursive | src/btree_erase.cc:244-409 | the whole recursion, for any chain of merges and shifts |
| BtreeErase.Erase | src/btree_erase.cc:155-242 | removes exactly the key or reports that it is missing with nothing changed; the tree stays well formed and loses a level exactly when the root lost its last separator; a leaf that was at least half full, or is the root, is the only page changed, any other is merged into its neighbour or ends with no fewer entries than before |
| BtreeMap.InsertRefines | src/btree_insert.cc:298-398 | an insert is the update of a finite map |
| BtreeMap.EraseRefines | src/btree_erase.cc:155-242 | an erase is the removal from a finite map |
| BtreeMap.FindRefines | src/btree_find.cc:33-398 | an exact lookup is the lookup in a finite map |
| BtreeMap.MapNeighbour | src/btree_find.cc:143-388 | predecessor and successor in the entry sequence are the largest smaller and smallest larger key of the map |
| BtreeMap.SearchRefines | src/btree_find.cc:33-398 | a lookup with any flags answers from the map: the key itself, or an allowed neighbour, or not found exactly if there is none |
| BtreeMap.LeafNamed | src/btree_find.cc:46-94 | every leaf is the one that covers some key, so a hint can be named by a key |
| BtreeMap.Execute | src/btree_insert.cc:400-454 | one operation of a run changes the map and answers as the map says |
| BtreeMap.Run | src/btree.cc:169-233 | over any run of inserts, hinted appends and prepends, erases and lookups, exact or approximate and with any hint, contents and every reply are those of a finite map |
| BtreeMap.ContentsUnique | src/btree_check.cc:206-316 | pages and root decide the contents and the height |
| Bytes.DecodeEncode | src/log.cc:373-389 | stored integers read back |
| LogFormat.EntryFields | src/log.h:62-83 | the fields of a log entry read back |
| LogFormat.StepBack | src/log.cc:119-172 | the record in front of the iterator is found, aligned, and the iterator then stands behind the one before |
| LogFormat.Log.constructor | src/log.cc:33-55 | a new log is empty |
| LogFormat.Log.IsEmpty | src/log.cc:89-102 | true exactly if nothing was appended |
| LogFormat.Log.Clear | src/log.cc:104-117 | only the header is left |
| LogFormat.Log.AppendWrite | src/log.cc:373-389 | the log has exactly one more record |
| LogFormat.Log.GetEntry | src/log.cc:119-172 | the records from the last to the first, then an lsn of zero |
| CrashModel.FlushPhases | src/changeset.cc:107-217 | at every crash point: not all is logged and nothing written, or all is logged and some pages are written, or all is done |
| CrashModel.ReplayAll | src/log.cc:240-365 | a complete log with an lsn restores every logged page |
| CrashModel.CrashAtomic | src/log.cc:240-365 | for every crash point and any interrupted recoveries, a completed recovery leaves the after-image if everything was logged before the crash, and the before-image otherwise |
| CrashModel.RunIsCommits | src/changeset.cc:107-217 | after any run of flushes, crashes and recoveries the disk holds exactly the committed changesets |
| CrashModel.UnloggedAtomic | src/changeset.cc:168-212 | page writes without a log are atomic exactly if at most one page differs from the disk |
| CrashModel.ZeroLsnNotReplayed | src/log.cc:290-292 | a complete log with an lsn of zero is cleared but not replayed |
| ChangesetFlush.OrderCovers | src/changeset.cc:122-158 | the buckets hold every dirty page of the changeset and nothing else |
| ChangesetFlush.Counts | src/changeset.cc:122-158 | page_count is the number of pages in the buckets |
| ChangesetFlush.FlushIsLogged | src/changeset.cc:168-184 | a flush with a page of unknown kind or two index pages meets the conditions of CrashAtomic |
| ChangesetFlush.Env.AppendPage | src/log.cc:200-238 | one record, complete exactly if the page count is zero |
| ChangesetFlush.Env.FlushPage | src/page.cc:64-76 | the page is on disk and clean |
| ChangesetFlush.LogBucket | src/changeset.cc:78-98 | appends the bucket in order while the count runs down |
| ChangesetFlush.Changeset.AddPage | src/changeset.cc:31-46 | the page is in the list exactly once |
| ChangesetFlush.Changeset.GetPage | src/changeset.cc:48-63 | finds exactly the pages in the list |
| ChangesetFlush.Sort | src/changeset.cc:119-158 | sorts the dirty pages into the four buckets and counts them |
| ChangesetFlush.LogAll | src/changeset.cc:175-184 | logs the buckets in order with the complete mark on the last record only |
| ChangesetFlush.WriteAll | src/changeset.cc:199-212 | writes exactly the dirty pages in list order |
| ChangesetFlush.Flush | src/changeset.cc:107-217 | takes exactly the steps of FlushSteps and leaves an empty changeset |
| LogRecovery.RestorePage | src/log.cc:294-338 | a page right behind the file is appended, a page in the file overwritten, any other is an error |
| LogRecovery.Recover | src/log.cc:240-365 | takes exactly the recovery steps; fails exactly if a page of a complete log cannot be read, and then keeps the log; the lsn kept for the journal is that of the last record replayed, the first of the log if all have one, and unchanged if nothing is replayed |
| LogRecovery.RecoveryNeverFails | src/log.cc:294-338 | at every crash point of a logged flush recovery can read what it needs |
| LogRecovery.FlushAtomic | src/changeset.cc:107-217 | for every crash point of Changeset::flush and any interrupted recoveries the disk ends wholly before or wholly after the changeset |
| LogRecovery.NothingReplayed | src/log.cc:240-365 | recoveries of an empty or incomplete log, or of one without lsn, only clear it, however often they are interrupted |
| LogRecovery.FlushAtomicExactly | src/changeset.cc:107-217 | Changeset::flush is atomic over all crash points and interrupted recoveries exactly if it logs, with an lsn, or at most one page differs from the disk |
| LogRecovery.TwoIndexPages | src/changeset.cc:119-184 | two dirty index pages, roots or the header page among them, make a flush with an lsn atomic over all crash points and interrupted recoveries |
| LogRecovery.UnknownPage | src/changeset.cc:119-184 | so does one dirty page of unknown kind |
| LogRecovery.LogsOnlyThen | src/changeset.cc:168-184 | a flush appends to the log only if there is a dirty page of unknown kind or two dirty index pages |
| TxnModel.NewestDecides | src/db.cc:1426-1526 | reading backwards to the newest visible operation is the same as replaying all visible ones, oldest first |
| TxnModel.AppendIsolated | src/db.cc:1164-1215 | an operation that passed the conflict check keeps the isolation invariant |
| TxnModel.FinishIsolated | src/txn.cc:359-398 | committing or aborting keeps it |
| TxnModel.WithoutIsolated | src/txn.cc:468-482 | freeing operations keeps it |
| TxnModel.NodeIsolated | src/txn.cc:264-327 | it holds for the list of every key |
| TxnModel.FlushKeeps | src/env.cc:1447-1566 | one step: flushing a committed transaction keeps the answer for a key exactly if the key is contested, or no older visible operation of another transaction with a different effect is left to decide it |
| TxnModel.FlushCanLose | src/env.cc:1568-1599 | one step of a flush in begin order that brings an erased key back |
| TxnModel.InOrderSafe | src/env.cc:1568-1599 | with operations in begin order this cannot happen to the oldest transaction |
| TxnModel.FlushOldest | src/env.cc:1568-1599 | then flushing it changes no answer for any transaction and key |
| TxnModel.GoneWithout | src/txn.cc:468-482 | freeing a transaction empties the list of a key exactly if all its operations were of this transaction |
| TxnModel.InOrderStays | src/env.cc:1568-1599 | with operations in begin order, freeing the oldest transaction never leaves a newest pointer on a freed operation |
| TxnFlush.StoredLookup | src/env.cc:1568-1599 | what the btree holds for a key after the loop was written by the last flushed transaction that touched it |
| TxnFlush.LoopKeeps | src/env.cc:1568-1599 | the whole loop keeps the answer for a key exactly if the key is contested, or its newest visible operation stays, or that operation has the effect of the newest visible one left or, with none left, of the last flushed transaction that touched the key |
| TxnFlush.EndsStep | src/env.cc:1568-1599 | how the question whether the newest operation on a key was flushed carries from step to step |
| TxnModel.AbortInvisible | src/txn.cc:374-398 | an abort changes no answer for anyone who could read the key |
| TxnModel.CommitPublishes | src/txn.cc:359-372 | after a commit everyone sees, on the keys it touched, exactly what the transaction saw |
| TxnLists.Append | src/txn.cc:264-327 | a new operation is the last of the list of its key and of its transaction; all other lists and all newest pointers stay as they were |
| TxnLists.FreeOp | src/txn.cc:428-466 | one operation leaves both lists; a newest pointer stays right exactly if it does not lead to this operation, or the node goes with it |
| TxnLists.FreeOps | src/txn.cc:468-482 | exactly the operations of the transaction are gone and all lists stay proper lists of the rest |
| TxnLists.FreedHolds | src/txn.cc:468-482 | afterwards the newest pointer of a key is right exactly if nothing is pending for it, or it was right and the newest operation was not one of the transaction |
| TxnLists.NodeSteps | src/txn.h:127-136 | the pointers of the list of a key lead from each of its operations to the one before |
| TxnLists.TxnSteps | src/txn.h:139-148 | the pointers of the list of a transaction lead from each of its operations to the one behind |
| Transactions.TxnDb.Begin | src/txn.cc:329-357 | a new active transaction, the newest of the list |
| Transactions.Walk | src/db.cc:997-1067 | from a right newest pointer the walk along the previous pointers finds the newest visible operation, or a conflict exactly if another active transaction has an operation on the key |
| Transactions.TxnDb.CheckInsert | src/db.cc:997-1067 | conflict exactly if another active transaction holds the key, duplicate exactly if the key is found by replay and may not be overwritten, else success |
| Transactions.TxnDb.CheckErase | src/db.cc:1069-1125 | conflict exactly if another active transaction holds the key, not found exactly if replay does not find it, else success |
| Transactions.TxnDb.Append | src/txn.cc:264-327 | the operation is the newest of its key; every newest pointer is as right as it was |
| Transactions.TxnDb.Release | src/txn.cc:468-482 | the operations of a transaction are freed one by one; which newest pointers are right afterwards, exactly |
| Transactions.TxnDb.Find | src/db.cc:1426-1616 | with a right newest pointer an exact lookup equals the lookup after replaying the visible operations on the btree |
| Transactions.TxnDb.Insert | src/db.cc:1164-1245 | refused with nothing changed, as a conflict or as a duplicate exactly when it is one, or the transaction then finds the record |
| Transactions.TxnDb.Erase | src/db.cc:1335-1407 | refused with nothing changed, as a conflict or because the key is not found exactly when it is not, or the transaction then does not find the key |
| Transactions.TxnDb.Abort | src/txn.cc:374-482 | its operations are gone; by replay nobody who could read a key sees a difference; a right newest pointer stays right exactly if the newest operation on the key is not one of the transaction or all are |
| Transactions.TxnDb.FlushTxn | src/env.cc:1447-1566 | the btree is as after applying the transaction's operations in order |
| Transactions.TxnDb.FlushCommitted | src/env.cc:1568-1599 | flushes from the oldest on and stops at the first active transaction; which answers stay, and which newest pointers are right, exactly, for the whole loop; all of them if operations came in begin order |
| Transactions.TxnDb.Commit | src/txn.cc:359-372 | after the flush another transaction sees what this one saw, on a key it touched, exactly if the loop condition holds; always if operations came in begin order |
| TxnSerial.Execute | src/db.cc:1164-1616 | with no unfinished operation of others, an insert, erase or lookup answers and changes what the transaction sees as in a finite map |
| TxnSerial.Run | src/db.cc:1164-1616 | all replies of any sequence of them are those of the map |
| TxnSerial.RunSession | src/txn.cc:329-398 | a whole transaction: replies of the map; afterwards the btree holds that map if it committed and what it held before if it aborted |
| TxnSerial.Serial | src/env.cc:1568-1599 | any number of transactions one after the other: all replies, and the final btree, are those of a map to which the committed ones were applied in order |
| TxnRuns.AbortStrands | src/txn.cc:374-466 | a run: a committed write behind an active transaction is overwritten, the overwrite is aborted, and the key, which should be found, has a newest pointer on a freed operation |
| TxnRuns.FlushStrands | src/env.cc:1568-1599 | a run: a flush that stops at an active transaction leaves a key with a pending operation and a newest pointer on a freed one, and changes the answer |
| TxnRuns.ErasedKeyReturns | src/env.cc:1568-1599 | a run in which a flush of two committed transactions brings an erased key back |
| TxnRuns.StepsDiffer | src/env.cc:1568-1599 | an example in which a step of the loop changes the answer and the whole loop does not |
| MergeCursor.CurView | src/cursor.cc:186-212 | where the cursor stands, the transaction tree decides whether the key is there |
| MergeCursor.Cursor.constructor | src/cursor.cc:1023-1030 | a fresh cursor has both parts nil and a comparison of zero |
| MergeCursor.Cursor.Compare | src/cursor.cc:332-382 | stores the order of the two current keys |
| MergeCursor.Cursor.CheckBtreeKey | src/cursor.cc:186-212 | whether the btree key is erased, overwritten or absent in the transaction tree |
| MergeCursor.Cursor.NextStep | src/cursor.cc:384-484 | moves to the next key of either tree, skipping none; a comparison that points to a nil cursor stops it in place |
| MergeCursor.Cursor.Next | src/cursor.cc:486-550 | the next key to visit, or the end exactly if there is none; with a comparison that points to an empty tree it stays on the same key or finds a nil cursor |
| MergeCursor.Cursor.FirstStep | src/cursor.cc:720-780 | stands on the smallest key, ready to walk exactly if the old comparison does not point to an empty tree |
| MergeCursor.Cursor.First | src/cursor.cc:782-828 | the smallest key to visit, or none exactly if there is none, if the old comparison does not point to an empty tree; what happens otherwise |
| MergeCursor.Cursor.PreviousStep | src/cursor.cc:552-653 | NextStep in the other direction |
| MergeCursor.Cursor.Previous | src/cursor.cc:655-718 | Next in the other direction |
| MergeCursor.Cursor.LastStep | src/cursor.cc:830-890 | FirstStep in the other direction |
| MergeCursor.Cursor.Last | src/cursor.cc:892-938 | First in the other direction |
| MergeCursor.Cursor.Retarget | src/env.cc:1546-1559 | a flush or abort replaces the trees under the cursor and keeps its comparison |
| MergeCursor.FirstRepeats | src/cursor.cc:720-828 | a run: after a flush emptied the transaction tree, FIRST and NEXT return the same key twice and a second key is there |
| MergeCursor.FirstFails | src/cursor.cc:720-828 | a run: over an emptied btree FIRST finds a nil cursor although a key is there |
| MergeCursor.WalkForward | src/cursor.cc:940-1021 | FIRST and NEXT to the end visit exactly the btree keys not erased in the transaction tree plus those inserted there, once each and ascending |
| MergeCursor.WalkBackward | src/cursor.cc:940-1021 | LAST and PREVIOUS to the start visit them once each and descending |
| DatabaseWalk.FirstLeaf | src/btree_cursor.cc:73-118 | the descent along the left pointers ends in the leftmost leaf |
| DatabaseWalk.BtreeKeys | src/btree_cursor.cc:120-200 | FIRST and NEXT on the btree give all its keys in order |
| DatabaseWalk.ViewIsAnswer | src/cursor.cc:186-212 | a key is in the merged view of btree and transaction tree exactly if a lookup of the transaction finds it |
| DatabaseWalk.TreeNodes | src/txn_cursor.cc:111-174 | the nodes of the transaction tree in key order, erased or not as the newest visible operation says |
| DatabaseWalk.Scan | src/cursor.cc:940-1021 | FIRST and NEXT over a database with no contested key visit exactly the keys a lookup finds, once each and ascending |
| DatabaseWalk.ScanBack | src/cursor.cc:940-1021 | LAST and PREVIOUS visit the same keys, once each and descending |
| PageList.IsInList | src/page.h:292-300 | the page's own pointers and the head tell whether it is in the list |
| PageList.ListInsert | src/page.h:305-315 | the page is the new head and pages of other lists are untouched |
| PageList.ListRemove | src/page.h:318-339 | exactly the page leaves the list, with its pointers reset |
| PageCache.BucketInsert | src/cache.h:155-165 | the bucket of its hash gains the page and all buckets stay proper lists of exactly the cached pages of their hash |
| PageCache.BucketRemove | src/cache.h:185-192 | the bucket loses the page and all buckets stay proper lists of exactly the cached pages of their hash |
| PageCache.EvictOldest | src/cache.h:66-91 | taking the last unpinned page of the list removes exactly the oldest page that may go |
| PageCache.Cache.constructor | src/cache.cc:29-38 | a new cache is empty; a capacity of zero stands for the default |
| PageCache.Cache.RemovePage | src/cache.h:177-205 | list, buckets, tail and count lose exactly the page |
| PageCache.Cache.PutPage | src/cache.h:134-172 | the page is cached once, as the most recently stored |
| PageCache.Cache.GetPage | src/cache.h:101-129 | found through its bucket exactly if cached, then removed or moved to the front |
| PageCache.Cache.GetUnusedPage | src/cache.h:62-92 | evicts the least recently stored page outside the changeset; none exactly if all are pinned |
| PageCache.Cache.PurgeSome | src/env.cc:1619-1666 | evicts the oldest unpinned pages first, and only if count times page size exceeds the capacity; at most 20 and at most a tenth of the pages, or one, unless strict; reports the limit exactly when it used it up; keeps pinned pages |
| PageCache.Cache.Purge | src/env.cc:1668-1681 | ends; on success count times page size is within the capacity or only pinned pages are left; a cache that fits is left as it is; unless strict it evicts at most 20 pages too many; pinned pages stay |
| BlobIO.PageWrite | src/blob.cc:165-182 | writing into a cached page changes exactly that range of the file view |
| BlobIO.DeviceWrite | src/blob.cc:183-195 | writing to the device inside an uncached page does too |
| BlobIO.FileEnv.FetchPage | src/db.cc:695-748 | loading a page does not change the view |
| BlobIO.FileEnv.WriteChunks | src/blob.cc:56-200 | exactly the addressed range becomes the concatenated chunks, for every mix of cached and direct pages; with a log, outside fresh pages, and for chunks shorter than a page nothing goes past the cache |
| BlobIO.FileEnv.ReadChunk | src/blob.cc:202-277 | the slice of the view |
| BlobBooks.AllocSize | src/blob.cc:419-424 | the smallest multiple of 32 that holds header and record |
| BlobBooks.AllocFits | src/blob.cc:419-424 | computed in 32 bits the space is right exactly if nothing wraps around, and else at most 32 bytes |
| BlobBooks.AlignedFits | src/blob.cc:454-462 | whole pages computed in 32 bits hold the space exactly if nothing wraps around, and else are none |
| BlobBooks.ChunkSteps | src/blob.cc:31 | between whole chunks the bound of 37 bytes is that of one chunk |
| BlobBooks.TakeFree | src/blob.cc:426-429 | taking a free area keeps the books |
| BlobBooks.TakeNew | src/blob.cc:435-480 | taking space from the device, with the rest given to the freelist, keeps the books |
| BlobBooks.Release | src/blob.cc:977-1019 | freeing a blob keeps the books |
| BlobBooks.Resize | src/blob.cc:889-951 | shrinking a blob in place keeps the books |
| BlobBooks.Apart | src/blob.cc:419-488 | live blobs never overlap |
| BlobStore.HeaderFields | src/blob.h:32-52 | the blob header reads back |
| BlobStore.Store.constructor | src/blob.h:26-52 | nothing is live and nothing is taken |
| BlobStore.Store.FreelistAlloc | src/freelist.h:430-440 | an aligned area taken out of the free bytes, or none; if the freelist does not miss one, none exactly if there is none |
| BlobStore.Store.Grow | src/device.h:245-255 | the file grows at its end and keeps what it holds |
| BlobStore.Store.PlaceInPage | src/blob.cc:435-453 | a new page for a small blob |
| BlobStore.Store.PlaceDirect | src/blob.cc:454-480 | whole pages from the device, a rest above 37 bytes to the freelist |
| BlobStore.Store.Place | src/blob.cc:426-488 | space for the blob that nobody else owns; if a free area fits the file does not grow |
| BlobStore.Store.WriteGap | src/blob.cc:521-545 | fills a gap with zeros, a page at a time |
| BlobStore.Store.WriteBlob | src/blob.cc:490-636 | header and record are in the file, with zeros around a partial record |
| BlobStore.Store.Allocate | src/blob.cc:350-639 | exactly one new blob with the record and at most one chunk to spare; all others keep theirs; every byte is accounted for; if a free area fits the file does not grow |
| BlobStore.Store.Read | src/blob.cc:641-765 | the record of a live blob; a window of it is read, and read right, exactly if its end in 32 bits does not fall back into the record; not found and a bad offset exactly |
| BlobStore.Store.Overwrite | src/blob.cc:799-975 | in place exactly if the space suffices, else moved; the window holds the new part, the rest of the record and of the space what stood there, or zeros in a new blob; a rest of more than one chunk is given back; all others unchanged; every byte is accounted for |
| BlobStore.Store.Free | src/blob.cc:977-1019 | exactly this blob is gone and its space free |
| BlobStore.Store.FreedIsReused | src/blob.cc:426-429 | the space of a freed blob has room for any record that is no longer |
| BlobStore.Store.FitsIn | src/blob.cc:889-893 | a record no longer than the one in a blob fits into its space |
| BlobRuns.SlackReturns | src/blob.cc:889-945 | a run: a record is overwritten by a shorter one and that by the first bytes of a long one, and the end of the first record is back |
| BlobRuns.WindowWraps | src/blob.cc:726-738 | a window of 2^32 - 1 bytes from the second byte on is not cut at the end of the record |
| BlobRuns.SizesWrap | src/blob.cc:419-462 | a record of 2^32 - 1 bytes gets 32 bytes of space, and whole pages for 2^32 - 32 bytes are none |
| RecordHeap.TableFits | src/blob.cc:1243-1256 | the size of a table in 32 bits is right exactly below 2^28 slots |
| RecordHeap.TableReads | src/blob.h:85-155 | the bytes of a duplicate table give back its count, capacity and entries |
| RecordHeap.Heap.constructor | src/blob.h:26-52 | an empty heap over an empty blob store |
| RecordHeap.Heap.Allocate | src/blob.cc:350-639 | one more blob with the bytes of a record or table |
| RecordHeap.Heap.Overwrite | src/blob.cc:799-975 | the blob holds the new bytes, in place if they are no longer, else under a new id |
| RecordHeap.Heap.Free | src/blob.cc:977-1019 | exactly this blob is gone |
| RecordHeap.Heap.ReadBlob | src/blob.cc:641-765 | the bytes of the record or table |
| RecordHeap.Heap.ReadTable | src/blob.cc:279-336 | a table read back from its bytes is the table that was written |
| Records.InlineReads | src/btree_key.cc:79-92 | a record of up to eight bytes reads back from the pointer |
| Records.ReadRecord | src/btree.cc:854-936 | the record of an entry, from the pointer or from its blob |
| Records.ReadRecords | src/btree.cc:854-936 | the records of all entries of a table, in order |
| Records.NewCell | src/btree_key.cc:196-218 | inline up to eight bytes, a new blob above |
| Records.SetSingle | src/btree_key.cc:71-162 | the key has exactly the new record; its old blob is reused or freed |
| Records.Grown | src/blob.cc:1163-1189 | the table grows before it is full, by 8 slots below 24 and by a third from there on |
| Records.SmallerTable | src/blob.cc:1163-1189 | growing never shrinks the table |
| Records.LoadTable | src/blob.cc:1127-1159 | the entries and the capacity of the table, or of a new one with the single record |
| Records.PlaceMeans | src/blob.cc:1206-1238 | the four insert flags in terms of the records around the new one |
| Records.AddDuplicate | src/blob.cc:1114-1271 | the record is inserted in front, at the end, directly before or directly behind a given one as the flags say, or where the sort order says; a sorted table stays sorted exactly if the search did not start at the last of two or more entries with a larger record; no blob leaks |
| Records.OverwriteDuplicate | src/blob.cc:1191-1205 | exactly that duplicate is replaced and its blob freed |
| Records.WriteTable | src/blob.cc:1240-1262 | an old table is overwritten, in place if it did not grow, a first table is a new blob; the old table is gone |
| Records.SetRecord | src/btree_key.cc:55-246 | the list of records changes as asked in every case: replaced, in front, at the end, directly before or behind a given one, or at the sorted position; a sorted list stays sorted exactly as AddDuplicate says, the encoding stays valid, and exactly the reachable blobs are live |
| Records.FreeEntries | src/blob.cc:1312-1329 | exactly the blobs of the entries are freed |
| Records.EraseRecord | src/btree_key.cc:248-291 | the duplicate or all records are gone and exactly their blobs are freed |
| DupeOrder.SortedPosition | src/blob.cc:1021-1112 | terminates; an equal record goes right behind an equal one; the position keeps the order except when the search started at the last of two or more entries and the record is larger than all |
| DupeOrder.InsertKeepsSorted | src/blob.cc:1206-1238 | inserting at such a position keeps the table sorted and adds exactly one entry |
| DupeOrder.SortedExactly | src/blob.cc:1206-1238 | after an insert at the position that was searched the table is sorted exactly if the position was right |

## Left out

- Extended keys and their cache: they copy blobs without changing the argument about the tree.
- Duplicates inside the tree and in the merge cursor; duplicates are modelled at record level.
- Partial records inside transactions, and approximate matching in transactional lookups.
- Conflicts met by the merge cursor, changes of direction and repositioning after an insert or lookup.
- The journal, the red-black tree behind the transaction tree and the freelist bitmap; they appear as an operation history, an ordered sequence of keys and a set of free bytes.
- Statistics and hints: a hint is an arbitrary live leaf or none, and the early exit of a lookup for keys outside the recorded bounds is not modelled.
- In-memory environments, mmap, file and record filters, endianness, and environment open and close.
- The branch of my_merge_pages for a sibling on the left, and the second bucket removal in put_page: no caller reaches them.
- Failing allocations and I/O errors other than unreadable pages during recovery.
- BtreeErase.MergePages: the emptied page stays in the store, as in the source, and is not given back to the freelist.
- LogRecovery.RestorePage: extending the file and writing the page count as one step.
- BlobStore.Store.Allocate: needs a file that stays below 2^64 bytes and a size that does not wrap around in 32 bits; AllocFits and AlignedFits say when it does.
- BlobStore.Store.Overwrite: needs the same; partial offset and size together stay within the record.
- LogFormat.Log.AppendWrite: needs page sizes that are multiples of eight, which the page size rules guarantee.
- Transactions.Walk: needs a right newest pointer; what the code does after reading freed memory is undefined.
- Transactions.TxnDb.Find: needs a right newest pointer.
- Transactions.TxnDb.CheckInsert: needs a right newest pointer.
- Transactions.TxnDb.CheckErase: needs a right newest pointer.
- Transactions.TxnDb.Insert: needs a right newest pointer.
- Transactions.TxnDb.Erase: needs a right newest pointer.
- Transactions.TxnDb.Append: needs a right newest pointer.
- TxnLists.Append: needs a right newest pointer for its key, which is dereferenced.
- TxnModel.WithoutIsolated: is about the operations alone; the pointers to them are in TxnLists.
- TxnModel.AbortInvisible: is about the operations alone; Transactions.TxnDb.Abort says whose newest pointer stays right.
- TxnModel.FlushCanLose: is one step; TxnRuns.ErasedKeyReturns is the run to the end of the loop.
- MergeCursor.Cursor.Retarget: which keys the flush moved is up to the caller; DatabaseWalk ties the two trees to a database.
- MergeCursor.Cursor.Next: needs a cursor that stands on a key, ready or stuck, as First or Next leave it.
- MergeCursor.Cursor.Previous: needs a cursor that stands on a key, ready or stuck, as Last or Previous leave it.
- ChangesetFlush.Changeset.AddPage: the list of the changeset is a sequence, its page pointers are modelled for the cache only.
- BlobIO.FileEnv.FetchPage: does not model the error of a strict cache limit.
- Records.SetSingle: no partial records; those are modelled in BlobStore.
- Records.SetRecord: no partial records; needs a file below 2^64 bytes and blob sizes that do not wrap around in 32 bits.
- Records.WriteTable: a table updated in its page and one overwritten as a blob are the same; unused slots are zero.
